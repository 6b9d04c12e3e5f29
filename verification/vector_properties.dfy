/** Laws relating the vector operations to each other: access after update,
    round trips, the capacity invariant over any operation sequence, the
    iterator's traversal and the display format. */
module VectorProperties {
  import opened Options
  import opened Vectors
  import Text

  // ---------------------------------------------------------------------------
  // Access after update
  // ---------------------------------------------------------------------------

  /** After `push(x)` the next free index holds `x`, and `pop` restores the contents. */
  lemma PushThenGetAndPop<T>(v: Vector<T>, x: T)
    requires Valid(v)
    ensures Get(Push(v, x), Size(v)) == Some(x)
    ensures Last(Push(v, x)) == Some(x)
    ensures forall i :: 0 <= i < Size(v) ==> Get(Push(v, x), i) == Get(v, i)
    ensures Pop(Push(v, x)).ok && Pop(Push(v, x)).vec.elems == v.elems
  {
    var p := Push(v, x);
    assert p.elems[..Size(v)] == v.elems;
  }

  /** `insert(i, x)` then `get(i)` yields `x`; `remove(i)` then gives back the
      original contents. */
  lemma InsertThenGetAndRemove<T>(v: Vector<T>, index: int, x: T)
    requires Valid(v) && 0 <= index <= Size(v)
    ensures Get(Insert(v, index, x).vec, index) == Some(x)
    ensures Remove(Insert(v, index, x).vec, index).ok
    ensures Remove(Insert(v, index, x).vec, index).vec.elems == v.elems
  {
    var w := Insert(v, index, x).vec;
    var u := Remove(w, index).vec;
    assert |u.elems| == |v.elems|;
    forall i | 0 <= i < |v.elems|
      ensures u.elems[i] == v.elems[i]
    {
      if i >= index {
        assert u.elems[i] == w.elems[i + 1];
      }
    }
  }

  /** After `remove(i)`, `get(i)` yields what was at `i + 1`, or nothing when
      the removed element was the last one. */
  lemma RemoveThenGet<T>(v: Vector<T>, index: int)
    requires Valid(v) && 0 <= index < Size(v)
    ensures Get(Remove(v, index).vec, index) == Get(v, index + 1)
  {
  }

  /** `remove_element(x)` on a value nothing `equals` reports `false`. */
  lemma RemoveElementAbsent<T>(v: Vector<T>, equals: (T, T) -> bool, x: T)
    requires Valid(v)
    requires forall i :: 0 <= i < Size(v) ==> !equals(v.elems[i], x)
    ensures IndexOf(v, equals, x) == -1
    ensures !Contains(v, equals, x)
    ensures RemoveElement(v, equals, x) == Updated(false, v)
  {
  }

  // ---------------------------------------------------------------------------
  // Operation sequences
  // ---------------------------------------------------------------------------

  /** The mutating calls of the vector interface. */
  datatype Op<T> =
    | PushOp(x: T)
    | PopOp
    | SetOp(index: int, x: T)
    | InsertOp(index: int, x: T)
    | RemoveOp(index: int)
    | ClearOp

  function Apply<T>(v: Vector<T>, op: Op<T>): Vector<T>
    requires Valid(v)
  {
    match op
    case PushOp(x) => Push(v, x)
    case PopOp => Pop(v).vec
    case SetOp(i, x) => Set(v, i, x).vec
    case InsertOp(i, x) => Insert(v, i, x).vec
    case RemoveOp(i) => Remove(v, i).vec
    case ClearOp => Clear(v)
  }

  /** The state after performing `ops` in order. */
  function Replay<T>(v: Vector<T>, ops: seq<Op<T>>): (r: Vector<T>)
    requires Valid(v)
    ensures Valid(r)
    decreases |ops|
  {
    if ops == [] then v
    else
      var w := Apply(v, ops[0]);
      Replay(w, ops[1..])
  }

  /** Starting from any constructed vector, every sequence of operations keeps
      `size <= capacity` and never shrinks the capacity. */
  lemma {:induction false} ReplayKeepsCapacity<T>(capacity: nat, ops: seq<Op<T>>)
    ensures Valid(Replay(New(capacity), ops))
    ensures Replay(New(capacity), ops).capacity >= capacity
  {
    ReplayNeverShrinks(New(capacity), ops);
  }

  lemma {:induction false} ReplayNeverShrinks<T>(v: Vector<T>, ops: seq<Op<T>>)
    requires Valid(v)
    ensures Replay(v, ops).capacity >= v.capacity
    decreases |ops|
  {
    if ops != [] {
      var w := Apply(v, ops[0]);
      assert w.capacity >= v.capacity;
      ReplayNeverShrinks(w, ops[1..]);
    }
  }

  /** Number of elements a sequence of pushes and pops leaves, starting empty. */
  function Balance<T>(ops: seq<Op<T>>, size: nat): nat
    decreases |ops|
  {
    if ops == [] then size
    else if ops[0].PushOp? then Balance(ops[1..], size + 1)
    else if ops[0].PopOp? && size > 0 then Balance(ops[1..], size - 1)
    else Balance(ops[1..], size)
  }

  /** Over pushes and pops, `size` is the number of pushes minus the number
      of pops that succeeded. */
  lemma {:induction false} PushPopBalance<T>(v: Vector<T>, ops: seq<Op<T>>)
    requires Valid(v)
    requires forall i :: 0 <= i < |ops| ==> ops[i].PushOp? || ops[i].PopOp?
    ensures Size(Replay(v, ops)) == Balance(ops, Size(v))
    decreases |ops|
  {
    if ops != [] {
      PushPopBalance(Apply(v, ops[0]), ops[1..]);
    }
  }

  // ---------------------------------------------------------------------------
  // Iteration
  // ---------------------------------------------------------------------------

  /** From cursor `k` the iterator yields exactly the elements after `k`. */
  lemma {:induction false} TraverseSuffix<T>(v: Vector<T>, k: int)
    requires -1 <= k < Size(v)
    ensures Traverse(v, Iterator(k)) == v.elems[k + 1..]
    decreases Size(v) - k
  {
    if k + 1 < Size(v) {
      TraverseSuffix(v, k + 1);
    }
  }

  /** A fresh iterator's `next`/`current` loop visits indices `0..size-1` in
      order, each exactly once. */
  lemma IteratorVisitsAll<T>(v: Vector<T>)
    ensures Traverse(v, GetIterator()) == v.elems
    ensures |Traverse(v, GetIterator())| == Size(v)
  {
    if Size(v) == 0 {
      assert Traverse(v, GetIterator()) == [];
    } else {
      TraverseSuffix(v, -1);
    }
  }

  // ---------------------------------------------------------------------------
  // Display
  // ---------------------------------------------------------------------------

  lemma {:induction false} DisplayFromJoins<T>(s: seq<T>, format: T -> string, from: nat)
    requires from <= |s|
    ensures DisplayFrom(s, format, from) == Text.Join(FormatAll(s[from..], format), ", ")
    decreases |s| - from
  {
    if from < |s| {
      DisplayFromJoins(s, format, from + 1);
      var rest := FormatAll(s[from + 1..], format);
      assert s[from..][1..] == s[from + 1..];
      assert FormatAll(s[from..], format) == [format(s[from])] + rest;
      if from == |s| - 1 {
        assert rest == [];
      }
    }
  }

  /** `display` renders `[`, the formatted elements separated by ", ", `]`;
      an empty vector renders as `[]`. */
  lemma DisplayIsBracketedList<T>(v: Vector<T>, format: T -> string)
    ensures Display(v, format) == "[" + Text.Join(FormatAll(v.elems, format), ", ") + "]"
    ensures Size(v) == 0 ==> Display(v, format) == "[]"
  {
    DisplayFromJoins(v.elems, format, 0);
    assert v.elems[0..] == v.elems;
  }

  // ---------------------------------------------------------------------------
  // Concrete scenarios
  // ---------------------------------------------------------------------------

  function PushAll<T>(v: Vector<T>, xs: seq<T>): (r: Vector<T>)
    requires Valid(v)
    ensures Valid(r)
    decreases |xs|
  {
    if xs == [] then v else PushAll(Push(v, xs[0]), xs[1..])
  }

  /** Pushing 10, 20, 30 onto a new vector gives `[10, 20, 30]`, and `get(1)` is 20. */
  lemma ThreePushesDisplay()
    ensures var v := PushAll(NewDefault<nat>(), [10, 20, 30]);
      && Display(v, Text.Decimal) == "[10, 20, 30]"
      && Get(v, 1) == Some(20)
  {
    var v := PushAll(NewDefault<nat>(), [10, 20, 30]);
    assert v.elems == [10, 20, 30];
    DisplayIsBracketedList(v, Text.Decimal);
    assert Text.Decimal(10) == "10" && Text.Decimal(20) == "20" && Text.Decimal(30) == "30";
    assert FormatAll(v.elems, Text.Decimal) == ["10", "20", "30"];
  }

  /** Eleven pushes onto a vector of capacity 10 leave size 11 and capacity 20. */
  lemma ElevenPushesDoubleOnce()
    ensures var v := PushAll(New<int>(10), [1, 2, 3, 4, 5, 6, 7, 8, 9, 10, 11]);
      Size(v) == 11 && v.capacity == 20
  {
  }

  // ---------------------------------------------------------------------------
  // The code as written
  // ---------------------------------------------------------------------------

  /** With capacity 0 the written growth step `capacity *= 2` allocates
      nothing, so `push` stores past the end of the buffer. The corrected
      `Push` keeps `size <= capacity`. */
  lemma PushAsWrittenOverrunsEmptyBuffer<T>(x: T)
    ensures !Valid(PushAsWritten(New<T>(0), x))
    ensures Valid(Push(New<T>(0), x)) && Push(New<T>(0), x).capacity == 1
  {
  }

  /** The written guard of `get` accepts index -1 and reads slot -1, which is
      outside the buffer; the corrected `Get` reports it absent. */
  lemma GetAsWrittenReadsBeforeBuffer<T>(v: Vector<T>)
    ensures GetSlotAsWritten(v, -1) == Some(-1)
    ensures Get(v, -1) == None
  {
  }

}

/** CircularBuffer.cs and CircularDoubleBuffer.cs: a bounded deque over a fixed array. */
module CircularBuffer {

  /** The value of a call, or the fact that it threw. */
  datatype Result<+T> = Returned(value: T) | Thrown

  /** The slot i places behind `start`. */
  function Slot(start: nat, i: nat, capacity: nat): (s: nat)
    requires start < capacity && i <= capacity
    ensures s < capacity
  {
    if start + i < capacity then start + i else start + i - capacity
  }

  // ----- where Back looks -----

  /** The slot Back reads in a buffer that is not empty. */
  function BackSlot(start: nat, size: nat, capacity: nat): int
    requires start < capacity && size <= capacity
  {
    var end := Slot(start, size, capacity);
    (if end != 0 then end else size) - 1
  }

  /** Back reads the slot of the last element exactly when the end index is not zero or the buffer
      is full. */
  lemma BackReadsLastSlot(start: nat, size: nat, capacity: nat)
    requires start < capacity && 1 <= size <= capacity
    ensures BackSlot(start, size, capacity) == Slot(start, size - 1, capacity)
            <==> Slot(start, size, capacity) != 0 || size == capacity
  {
  }

  // ----- the class -----

  class Buffer<T> {
    const dflt: T
    const buffer: array<T>
    var start: nat
    var end: nat
    var size: nat

    ghost predicate Valid()
      reads this, buffer
    {
      && buffer.Length >= 1 && start < buffer.Length && size <= buffer.Length
      && end == Slot(start, size, buffer.Length)
      && forall i :: size <= i < buffer.Length ==> buffer[Slot(start, i, buffer.Length)] == dflt
    }

    /** The elements in order. */
    ghost function Contents(): (s: seq<T>)
      requires Valid()
      reads this, buffer
      ensures |s| == size
    {
      seq(size, i requires 0 <= i < size reads this, buffer requires Valid() => buffer[Slot(start, i, buffer.Length)])
    }

    /** What no sequence of PushBack calls on a new buffer leaves. */
    ghost predicate PushedBackOnly()
      reads this
    {
      start == 0 || size == buffer.Length
    }

    constructor (dflt: T, capacity: nat, items: seq<T>)
      requires 1 <= capacity && |items| <= capacity
      ensures Valid() && fresh(buffer) && this.dflt == dflt && buffer.Length == capacity
      ensures Contents() == items && start == 0 && PushedBackOnly()
    {
      this.dflt := dflt;
      buffer := new T[capacity](i requires 0 <= i < capacity => if i < |items| then items[i] else dflt);
      size := |items|;
      start := 0;
      end := if |items| == capacity then 0 else |items|;
    }

    /** The public constructor throws on a capacity below one and on too many items. */
    static method Create(dflt: T, capacity: int, items: seq<T>) returns (b: Buffer?<T>)
      ensures b == null <==> capacity < 1 || |items| > capacity
      ensures b != null ==> fresh(b) && fresh(b.buffer) && b.Valid() && b.Contents() == items && b.PushedBackOnly()
      ensures b != null ==> b.dflt == dflt && b.buffer.Length == capacity
    {
      if capacity < 1 || |items| > capacity {
        return null;
      }
      b := new Buffer(dflt, capacity, items);
    }

    function Increment(index: nat): (r: nat)
      requires index < buffer.Length
      ensures r == Slot(index, 1, buffer.Length)
    {
      if index + 1 == buffer.Length then 0 else index + 1
    }

    function Decrement(index: nat): (r: nat)
      requires index < buffer.Length
      ensures r == Slot(index, buffer.Length - 1, buffer.Length)
    {
      if index == 0 then buffer.Length - 1 else index - 1
    }

    function InternalIndex(index: int): int
      reads this
    {
      start + (if index < buffer.Length - start then index else index - buffer.Length)
    }

    /** The indexer. An index below zero is not rejected: it reads the array in front of the first
        element, or throws when there is no such place. */
    method Get(index: int) returns (r: Result<T>)
      requires Valid()
      ensures 0 <= index < size ==> r == Returned(Contents()[index])
      ensures index >= size || size == 0 ==> r == Thrown
      ensures index < 0 < size ==> r == if start + index >= 0 then Returned(buffer[start + index]) else Thrown
    {
      if size == 0 || index >= size {
        return Thrown;
      }
      var actualIndex := InternalIndex(index);
      r := if actualIndex < 0 then Thrown else Returned(buffer[actualIndex]);
    }

    /** The indexed setter. As for the indexer, an index below zero is not rejected: it overwrites a
        slot in front of the first element where there is one. */
    method Set(index: int, value: T) returns (ok: bool)
      requires Valid()
      modifies buffer
      ensures ok == (size > 0 && index < size && start + index >= 0)
      ensures index >= 0 || !ok ==> Valid()
      ensures index >= 0 ==> Contents() == if ok then old(Contents())[index := value] else old(Contents())
      ensures index < 0 ==> buffer[..] == if ok then old(buffer[..])[start + index := value] else old(buffer[..])
    {
      ok := size != 0 && index < size;
      if ok {
        var actualIndex := InternalIndex(index);
        ok := actualIndex >= 0;
        if ok {
          buffer[actualIndex] := value;
        }
      }
    }

    method Front() returns (r: Result<T>)
      requires Valid()
      ensures r == if size == 0 then Thrown else Returned(Contents()[0])
    {
      r := if size == 0 then Thrown else Returned(buffer[start]);
    }

    /** Back returns the last element wherever BackReadsLastSlot says so. */
    method Back() returns (r: Result<T>)
      requires Valid()
      ensures size == 0 ==> r == Thrown
      ensures size > 0 ==> 0 <= BackSlot(start, size, buffer.Length) < buffer.Length
      ensures size > 0 ==> r == Returned(buffer[BackSlot(start, size, buffer.Length)])
      ensures size > 0 && (end != 0 || size == buffer.Length) ==> r == Returned(Contents()[size - 1])
      ensures size > 0 && PushedBackOnly() ==> r == Returned(Contents()[size - 1])
    {
      if size == 0 {
        return Thrown;
      }
      BackReadsLastSlot(start, size, buffer.Length);
      r := Returned(buffer[(if end != 0 then end else size) - 1]);
    }

    method PushBack(item: T)
      requires Valid()
      modifies this`start, this`end, this`size, buffer
      ensures Valid()
      ensures Contents() == (if old(size) == buffer.Length then old(Contents())[1..] else old(Contents())) + [item]
      ensures old(PushedBackOnly()) ==> PushedBackOnly()
    {
      buffer[end] := item;
      end := Increment(end);
      if size == buffer.Length {
        start := end;
      } else {
        size := size + 1;
      }
    }

    method PushFront(item: T)
      requires Valid()
      modifies this`start, this`end, this`size, buffer
      ensures Valid()
      ensures start == Slot(old(start), buffer.Length - 1, buffer.Length)
      ensures Contents() == [item]
        + (if old(size) == buffer.Length then old(Contents())[..old(size) - 1] else old(Contents()))
    {
      start := Decrement(start);
      if size == buffer.Length {
        end := start;
        buffer[start] := item;
      } else {
        buffer[start] := item;
        size := size + 1;
      }
      ghost var n := buffer.Length;
      assert forall i :: 0 < i < n ==> Slot(start, i, n) == Slot(old(start), i - 1, n);
    }

    method PopBack() returns (ok: bool)
      requires Valid()
      modifies this`end, this`size, buffer
      ensures Valid() && ok == (old(size) > 0)
      ensures Contents() == if ok then old(Contents())[..old(size) - 1] else old(Contents())
    {
      ok := size != 0;
      if ok {
        end := Decrement(end);
        buffer[end] := dflt;
        size := size - 1;
      }
    }

    method PopFront() returns (ok: bool)
      requires Valid()
      modifies this`start, this`size, buffer
      ensures Valid() && ok == (old(size) > 0)
      ensures start == if ok then Slot(old(start), 1, buffer.Length) else old(start)
      ensures Contents() == if ok then old(Contents())[1..] else old(Contents())
    {
      ok := size != 0;
      if ok {
        buffer[start] := dflt;
        start := Increment(start);
        size := size - 1;
        ghost var n := buffer.Length;
        assert forall i :: 0 <= i < n ==> Slot(start, i, n) == Slot(old(start), i + 1, n);
      }
    }

    // ----- the two segments -----

    /** Offset and count of the first segment. */
    function ArrayOne(): (int, int)
      reads this
    {
      if start < end then (start, end - start) else (start, buffer.Length - start)
    }

    function ArrayTwo(): (int, int)
      reads this
    {
      if start < end then (end, 0) else (0, end)
    }

    /** What the enumerator yields: the contents, or every free slot when there are none. */
    ghost function Enumerated(): (s: seq<T>)
      requires Valid()
      reads this, buffer
    {
      if size == 0 then seq(buffer.Length, _ => dflt) else Contents()
    }

    /** The two segments together are what is enumerated. */
    lemma SegmentsAreEnumerated()
      requires Valid()
      ensures
        var (o1, n1) := ArrayOne();
        var (o2, n2) := ArrayTwo();
        && 0 <= o1 <= o1 + n1 <= buffer.Length && 0 <= o2 <= o2 + n2 <= buffer.Length
        && buffer[o1..o1 + n1] + buffer[o2..o2 + n2] == Enumerated()
    {
      var (o1, n1) := ArrayOne();
      var (o2, n2) := ArrayTwo();
      var s := buffer[o1..o1 + n1] + buffer[o2..o2 + n2];
      forall i | 0 <= i < |s|
        ensures s[i] == buffer[Slot(start, i, buffer.Length)]
      {
      }
    }

    /** ToArray copies both segments into an array of Size elements: on an empty buffer the first one
        does not fit. */
    method ToArray() returns (r: Result<seq<T>>)
      requires Valid()
      ensures r == if size == 0 then Thrown else Returned(Contents())
    {
      SegmentsAreEnumerated();
      var (o1, n1) := ArrayOne();
      var (o2, n2) := ArrayTwo();
      if n1 > size || n1 + n2 > size {
        return Thrown;
      }
      r := Returned(buffer[o1..o1 + n1] + buffer[o2..o2 + n2]);
    }
  }

  /** A full buffer of three that loses its first element: Back returns the first of the two that are left. */
  method BackMisses<T>(dflt: T, a: T, b: T, c: T) returns (buffer: Buffer<T>, r: Result<T>)
    ensures fresh(buffer) && buffer.Valid() && buffer.Contents() == [b, c]
    ensures r == Returned(b) && (b != c ==> r != Returned(buffer.Contents()[buffer.size - 1]))
  {
    buffer := new Buffer(dflt, 3, [a, b, c]);
    var ok := buffer.PopFront();
    assert buffer.Contents()[0] == buffer.buffer[1];
    r := buffer.Back();
  }

  // ----- CircularDoubleBuffer -----

  function Total(s: seq<real>): real {
    if s == [] then 0.0 else Total(s[..|s| - 1]) + s[|s| - 1]
  }

  lemma {:induction false} TotalAppend(s: seq<real>, t: seq<real>)
    ensures Total(s + t) == Total(s) + Total(t)
  {
    if t == [] {
      assert s + t == s;
    } else {
      assert (s + t)[..|s + t| - 1] == s + t[..|t| - 1];
      TotalAppend(s, t[..|t| - 1]);
    }
  }

  lemma {:induction false} TotalOfZeros(n: nat)
    ensures Total(seq(n, _ => 0.0)) == 0.0
  {
    if n > 0 {
      assert seq(n, _ => 0.0)[..n - 1] == seq(n - 1, _ => 0.0);
      TotalOfZeros(n - 1);
    }
  }

  /** Adds up one segment. */
  method AddSegment(b: Buffer<real>, offset: int, count: int, sum0: real) returns (sum: real)
    requires 0 <= offset <= offset + count <= b.buffer.Length
    ensures sum == sum0 + Total(b.buffer[offset..offset + count])
  {
    sum := sum0;
    var i := 0;
    while i < count
      invariant 0 <= i <= count
      invariant sum == sum0 + Total(b.buffer[offset..offset + i])
    {
      assert b.buffer[offset..offset + i + 1][..i] == b.buffer[offset..offset + i];
      sum := sum + b.buffer[offset + i];
      i := i + 1;
    }
  }

  /** Sum runs over the enumerator. On an empty buffer that is every slot of the array, and the sum is
      right because the free slots hold zero. */
  method Sum(b: Buffer<real>) returns (sum: real)
    requires b.Valid() && b.dflt == 0.0
    ensures sum == Total(b.Contents())
  {
    b.SegmentsAreEnumerated();
    var (o1, n1) := b.ArrayOne();
    var (o2, n2) := b.ArrayTwo();
    sum := AddSegment(b, o1, n1, 0.0);
    sum := AddSegment(b, o2, n2, sum);
    TotalAppend(b.buffer[o1..o1 + n1], b.buffer[o2..o2 + n2]);
    TotalOfZeros(b.buffer.Length);
  }

  /** Average goes through ToArray, so that it throws on an empty buffer. */
  method Average(b: Buffer<real>) returns (r: Result<real>)
    requires b.Valid()
    ensures b.size == 0 ==> r == Thrown
    ensures b.size > 0 ==> r == Returned(Total(b.Contents()) / b.size as real)
  {
    var a := b.ToArray();
    match a {
      case Thrown => r := Thrown;
      case Returned(s) =>
        var sum := 0.0;
        for i := 0 to |s|
          invariant sum == Total(s[..i])
        {
          assert s[..i + 1][..i] == s[..i];
          sum := sum + s[i];
        }
        assert s[..|s|] == s;
        r := Returned(sum / |s| as real);
    }
  }
}

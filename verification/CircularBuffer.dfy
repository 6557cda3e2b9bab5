// The bounded ring of include/mw/mwFileQueue.h.
module CircularBuffer {
  import opened Basics

  /** The fields of a ring as a value. */
  datatype Ring<T> = Ring(buffer: seq<T>, head: nat, tail: nat, count: nat) {

    predicate Full() {
      count == |buffer|
    }

    predicate Empty() {
      count == 0
    }

    ghost predicate Valid() {
      && count <= |buffer|
      && if |buffer| == 0 then head == tail == 0
         else head < |buffer| && tail == (head + count) % |buffer|
    }

    /** The queued values, oldest first. */
    ghost function Contents(): (s: seq<T>)
      requires Valid()
      ensures |s| == count
    {
      seq(count, i requires 0 <= i < count => buffer[(head + i) % |buffer|])
    }

    /** push: refused when full. */
    function Push(value: T): Ring<T>
      requires Full() || tail < |buffer|
    {
      if Full() then this else Ring(buffer[tail := value], head, (tail + 1) % |buffer|, count + 1)
    }

    function Front(): T
      requires head < |buffer|
    {
      buffer[head]
    }

    function Pop(): Ring<T>
      requires 0 < count && |buffer| > 0
    {
      Ring(buffer, (head + 1) % |buffer|, tail, count - 1)
    }

    /** resize: rewinds both ends and resizes the storage; count is not touched. */
    function Resize(size: nat, default: T): Ring<T> {
      var kept := if size <= |buffer| then buffer[..size] else buffer + seq(size - |buffer|, _ => default);
      Ring(kept, 0, 0, count)
    }
  }

  /** Full and empty are what they say of the contents. */
  lemma FullEmptyIff<T>(r: Ring<T>)
    requires r.Valid()
    ensures r.Full() <==> |r.Contents()| == |r.buffer|
    ensures r.Empty() <==> r.Contents() == []
  {
  }

  /** push appends as long as there is a free slot, and changes nothing when there
      is none. */
  lemma PushAppends<T>(r: Ring<T>, value: T)
    requires r.Valid()
    ensures r.Push(value).Valid() && |r.Push(value).buffer| == |r.buffer|
    ensures r.Push(value).Contents()
         == if |r.Contents()| < |r.buffer| then r.Contents() + [value] else r.Contents()
  {
    if !r.Full() {
      var n := |r.buffer|;
      var r' := r.Push(value);
      ModOnce(r.head + r.count, n);
      ModOnce(r.tail + 1, n);
      ModOnce(r.head + r.count + 1, n);
      forall i | 0 <= i < r.count
        ensures r'.Contents()[i] == r.Contents()[i]
      {
        ModOnce(r.head + i, n);
      }
    }
  }

  lemma PopRemovesFront<T>(r: Ring<T>)
    requires r.Valid() && r.Contents() != []
    ensures r.Front() == r.Contents()[0]
    ensures r.Pop().Valid() && r.Pop().Contents() == r.Contents()[1..]
  {
    var n := |r.buffer|;
    var r' := r.Pop();
    ModOnce(r.head, n);
    ModOnce(r.head + r.count, n);
    ModOnce(r.head + 1, n);
    ModOnce(r'.head + r'.count, n);
    forall i | 0 <= i < r'.count
      ensures r'.Contents()[i] == r.Contents()[i + 1]
    {
      ModOnce(r'.head + i, n);
      ModOnce(r.head + (i + 1), n);
    }
  }

  /** Since resize does not reset count, the ring is consistent afterwards only
      if it held nothing, or as many values as the new storage has slots. */
  lemma ResizeValidIff<T>(r: Ring<T>, size: nat, default: T)
    ensures r.Resize(size, default).Valid() <==> r.count == 0 || r.count == size
  {
    if 0 < r.count <= size {
      ModOnce(r.count, size);
    }
  }

  /** A resize keeps the queue if and only if it was empty, or the new storage
      is exactly filled by the values and they already stand at its front. */
  lemma ResizeKeepsIff<T>(r: Ring<T>, size: nat, default: T)
    requires r.Valid()
    ensures (r.Resize(size, default).Valid() && r.Resize(size, default).Contents() == r.Contents())
       <==> r.count == 0 || (r.count == size && r.buffer[..size] == r.Contents())
  {
    ResizeValidIff(r, size, default);
    if r.count == size > 0 {
      var r' := r.Resize(size, default);
      forall i | 0 <= i < size
        ensures r'.Contents()[i] == r.buffer[..size][i]
      {
        ModOnce(i, size);
      }
      assert r'.Contents() == r.buffer[..size];
    }
  }

  /** What a caller can check: the values stand at the front when head is 0, and
      if no two slots are alike, only then. */
  lemma AtFrontIff<T>(r: Ring<T>)
    requires r.Valid() && r.count > 0
    ensures r.head == 0 ==> r.buffer[..r.count] == r.Contents()
    ensures (forall i, j :: 0 <= i < j < |r.buffer| ==> r.buffer[i] != r.buffer[j])
              ==> (r.head == 0 <==> r.buffer[..r.count] == r.Contents())
  {
    ModOnce(r.head, |r.buffer|);
    assert r.Contents()[0] == r.buffer[r.head];
    if r.head == 0 {
      forall i | 0 <= i < r.count
        ensures r.Contents()[i] == r.buffer[i]
      {
        ModOnce(i, |r.buffer|);
      }
    } else if r.buffer[..r.count] == r.Contents() {
      assert r.buffer[0] == r.buffer[..r.count][0] == r.buffer[r.head];
    }
  }

  /** A resize in use: the queue keeps neither its order nor its contents. */
  lemma ResizeLosesOrder()
    ensures var r := Ring([10, 20], 1, 1, 2);
            r.Valid() && r.Contents() == [20, 10] && r.Resize(2, 0).Valid() && r.Resize(2, 0).Contents() == [10, 20]
  {
    var r := Ring([10, 20], 1, 1, 2);
    ModOnce(3, 2);
    ModOnce(2, 2);
    ModOnce(1, 2);
    assert r.Contents()[0] == 20 && r.Contents()[1] == 10;
    assert r.Resize(2, 0).Contents()[0] == 10 && r.Resize(2, 0).Contents()[1] == 20;
  }

  class CircularBuffer<T(0)> {
    var buffer: array<T>
    var head: nat
    var tail: nat
    var count: nat

    ghost function View(): Ring<T>
      reads this, buffer
    {
      Ring(buffer[..], head, tail, count)
    }

    /** Only the storage is initialised; head, tail and count are not. */
    constructor ()
      ensures buffer.Length == 0 && fresh(buffer)
    {
      buffer := new T[0];
    }

    method Resize(size: nat, default: T)
      modifies this
      ensures View() == old(View()).Resize(size, default) && fresh(buffer)
      ensures buffer.Length == size && count == old(count)
      ensures forall i :: 0 <= i < size ==>
                buffer[i] == if i < old(buffer.Length) then old(buffer[i]) else default
    {
      tail := 0;
      head := 0;
      var old_ := buffer;
      buffer := new T[size](i requires i >= 0 reads old_ => if i < old_.Length then old_[i] else default);
    }

    method Push(value: T) returns (stored: bool)
      requires View().Valid()
      modifies this, buffer
      ensures stored == (|old(View().Contents())| < buffer.Length)
      ensures View() == old(View()).Push(value) && buffer == old(buffer)
    {
      if count == buffer.Length {
        return false;
      }
      ModOnce(head + count, buffer.Length);
      buffer[tail] := value;
      tail := (tail + 1) % buffer.Length;
      count := count + 1;
      return true;
    }

    method Front() returns (value: T)
      requires View().Valid() && View().Contents() != []
      ensures value == View().Contents()[0]
    {
      PopRemovesFront(View());
      value := buffer[head];
    }

    method Pop()
      requires View().Valid() && View().Contents() != []
      modifies this
      ensures View() == old(View()).Pop() && buffer == old(buffer)
    {
      head := (head + 1) % buffer.Length;
      count := count - 1;
    }
  }
}

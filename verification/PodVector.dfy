// The vector of plain words, include/mslcpp/vector.h: __vector_pod, whose one
// instantiation holds 4-byte words.  References are 32-bit addresses here,
// because the insertion's test whether x lies in the moved tail is address
// arithmetic that may wrap.
module PodVector {
  import opened Basics
  import opened GrowthPolicy
  import opened RawStorage

  const WORD: int := 4

  /** A `const T&`: its address, and what is there when that is outside the vector. */
  datatype Address<T> = Address(at: nat, elsewhere: T)

  /** Address of old_end - (num_move - n), with the subtraction in `unsigned long`. */
  function TailStart(oldEnd: nat, numMove: nat, n: nat): int {
    (oldEnd - WORD * ((numMove - n) % SPACE32)) % SPACE32
  }

  /** Also when n exceeds the tail and the difference wraps, the test compares
      with the address n words behind the insertion point. */
  lemma TailStartIsBehindGap(base: nat, position: nat, size: nat, n: nat)
    requires position <= size && base + WORD * (size + n) < SPACE32
    ensures TailStart(base + WORD * size, size - position, n) == base + WORD * (position + n)
  {
    var d := size - position - n;
    if d < 0 {
      assert d % SPACE32 == d + SPACE32;
      assert base + WORD * size - WORD * (d + SPACE32) == base + WORD * (position + n) - WORD * SPACE32;
    }
  }

  /** Which word of a block at `base` an address names. */
  function WordIndex(base: nat, at: nat): (i: nat)
    requires base <= at
  {
    (at - base) / WORD
  }

  /** n words on from an aligned address is n indices on. */
  lemma WordIndexAdvances(base: nat, at: nat, n: nat)
    requires base <= at && (at - base) % WORD == 0
    ensures WordIndex(base, at + WORD * n) == WordIndex(base, at) + n
    ensures at == base + WORD * WordIndex(base, at)
  {
  }

  class PodVector<T(0)> {
    var data: array<T>
    /** Address of data[0]. */
    var base: nat
    var size: nat
    var cap: nat
    const maxSize: nat
    ghost var moved: nat

    ghost predicate Valid()
      reads this
    {
      && size <= cap <= maxSize && WORD * maxSize < SPACE32
      && data.Length == cap && base + WORD * cap < SPACE32
    }

    ghost function Contents(): (s: seq<T>)
      requires Valid()
      reads this, data
    {
      data[..size]
    }

    ghost function Use(): Usage
      reads this
    {
      Usage(size, cap, moved)
    }

    predicate Inside(x: Address<T>)
      reads this
    {
      base <= x.at < base + WORD * cap
    }

    /** x points at an element, or at nothing of this vector's storage. */
    ghost predicate ValidRef(x: Address<T>)
      reads this
    {
      && x.at < SPACE32
      && (Inside(x) ==> (x.at - base) % WORD == 0 && WordIndex(base, x.at) < size)
    }

    function Deref(x: Address<T>): T
      requires Valid()
      reads this, data
    {
      if Inside(x) then data[WordIndex(base, x.at)] else x.elsewhere
    }

    constructor (maxSize: nat)
      requires WORD * maxSize < SPACE32
      ensures Valid() && Contents() == [] && Use() == Usage(0, 0, 0)
    {
      this.maxSize := maxSize;
      data := new T[0];
      base, size, cap, moved := 0, 0, 0, 0;
    }

    /** A block of n words somewhere in the 32-bit address space. */
    static method Allocate(n: nat) returns (block: array<T>, address: nat)
      requires WORD * n < SPACE32
      ensures fresh(block) && block.Length == n && address + WORD * n < SPACE32
    {
      block := new T[n];
      address :| 0 <= address <= SPACE32 - 1 - WORD * n;
    }

    /** The backward loop that opens the gap. */
    method ShiftUp(position: nat, n: nat)
      requires Valid() && position <= size && size + n <= cap == data.Length
      modifies data
      ensures forall i :: position + n <= i < size + n ==> data[i] == old(data[i - n])
      ensures forall i :: 0 <= i < position + n && i < cap ==> data[i] == old(data[i])
    {
      hide Valid;
      var src, dst := size, size + n;
      while src > position
        invariant position <= src <= size && dst == src + n
        invariant forall i :: dst <= i < size + n ==> data[i] == old(data[i - n])
        invariant forall i :: 0 <= i < dst && i < cap ==> data[i] == old(data[i])
      {
        src, dst := src - 1, dst - 1;
        data[dst] := data[src];
      }
    }

    /** The forward loop that assigns *xr to the gap; xr may point into it. */
    method FillGap(position: nat, n: nat, xr: Address<T>)
      requires Valid() && position <= size && size + n <= cap
      modifies data
      ensures forall i :: position <= i < position + n ==> data[i] == old(Deref(xr))
      ensures forall i :: 0 <= i < cap && !(position <= i < position + n) ==> data[i] == old(data[i])
    {
      var p, i := position, n;
      while i != 0
        invariant 0 <= i <= n && p == position + (n - i)
        invariant Deref(xr) == old(Deref(xr))
        invariant forall k :: position <= k < p ==> data[k] == old(Deref(xr))
        invariant forall k :: 0 <= k < cap && !(position <= k < p) ==> data[k] == old(data[k])
      {
        data[p] := Deref(xr);
        i, p := i - 1, p + 1;
      }
    }

    /** The adjustment of &x and the backward shift: afterwards *xr is what *x was. */
    method OpenGap(position: nat, n: nat, x: Address<T>) returns (xr: Address<T>)
      requires Valid() && ValidRef(x) && position <= size && 0 < n && size + n <= cap
      modifies data
      ensures Deref(xr) == old(Deref(x))
      ensures forall i :: position + n <= i < size + n ==> data[i] == old(data[i - n])
      ensures forall i :: 0 <= i < position ==> data[i] == old(data[i])
    {
      hide TailStart, WordIndex;
      var oldEnd := base + WORD * size;
      xr := x;
      if Inside(x) {
        WordIndexAdvances(base, x.at, n);
      }
      var numMove := size - position;
      TailStartIsBehindGap(base, position, size, n);
      if TailStart(oldEnd, numMove, n) <= xr.at < oldEnd {
        xr := xr.(at := xr.at + WORD * n);
      }
      if numMove != 0 {
        ShiftUp(position, n);
      }
    }

    method InsertInPlace(position: nat, n: nat, x: Address<T>)
      requires Valid() && ValidRef(x) && position <= size && 0 < n && size + n <= cap
      modifies this, data
      ensures Valid() && data == old(data) && cap == old(cap) && moved == old(moved)
      ensures Contents() == Inserted(old(Contents()), position, n, old(Deref(x)))
    {
      hide TailStart, WordIndex, Inserted;
      var xr := OpenGap(position, n, x);
      FillGap(position, n, xr);
      size := size + n;
      IsInserted(Contents(), old(Contents()), position, n, old(Deref(x)));
    }

    method InsertReallocating(position: nat, n: nat, x: Address<T>)
      requires Valid() && ValidRef(x) && position <= size && 0 < n
      requires cap < size + n <= maxSize
      modifies this
      ensures Valid() && fresh(data)
      ensures Contents() == Inserted(old(Contents()), position, n, old(Deref(x)))
      ensures Use() == AfterInsert(old(Use()), n, maxSize)
    {
      var newSize := size + n;
      var newCap := GrowCapacity(newSize, cap, maxSize);
      var block, address := CopyAround(position, n, x, newCap);
      moved := moved + size;
      data, base, size, cap := block, address, newSize, newCap;
    }

    /** The new block: first the copies of x, which still points into the old one. */
    method CopyAround(position: nat, n: nat, x: Address<T>, newCap: nat) returns (block: array<T>, address: nat)
      requires Valid() && ValidRef(x) && position <= size && size + n <= newCap && WORD * newCap < SPACE32
      ensures fresh(block) && block.Length == newCap && address + WORD * newCap < SPACE32
      ensures block[..size + n] == Inserted(Contents(), position, n, Deref(x))
    {
      hide Inserted, WordIndex;
      block, address := Allocate(newCap);
      var p, i := position, n;
      while i != 0
        invariant 0 <= i <= n && p == position + (n - i)
        invariant forall k :: position <= k < p ==> block[k] == Deref(x)
        modifies block
      {
        block[p] := Deref(x);
        i, p := i - 1, p + 1;
      }
      CopyWords(data, 0, position, block, 0);
      CopyWords(data, position, size, block, position + n);
      IsInserted(block[..size + n], Contents(), position, n, Deref(x));
    }

    /** std::copy between different blocks. */
    static method CopyWords(src: array<T>, first0: nat, last: nat, dst: array<T>, result0: nat)
      requires src != dst && first0 <= last <= src.Length && result0 + (last - first0) <= dst.Length
      modifies dst
      ensures forall i :: result0 <= i < result0 + (last - first0) ==> dst[i] == src[first0 + (i - result0)]
      ensures forall i :: 0 <= i < dst.Length && !(result0 <= i < result0 + (last - first0)) ==> dst[i] == old(dst[i])
    {
      var first, result := first0, result0;
      while first < last
        invariant first0 <= first <= last && result == result0 + (first - first0)
        invariant forall i :: result0 <= i < result ==> dst[i] == src[first0 + (i - result0)]
        invariant forall i :: 0 <= i < dst.Length && !(result0 <= i < result) ==> dst[i] == old(dst[i])
      {
        dst[result] := src[first];
        first, result := first + 1, result + 1;
      }
    }

    method Insert(position: nat, n: nat, x: Address<T>)
      requires Valid() && ValidRef(x) && position <= size
      requires n != 0 ==> n <= maxSize && size <= maxSize - n
      modifies this, data
      ensures Valid() && (data == old(data) || fresh(data))
      ensures Contents() == Inserted(old(Contents()), position, n, old(Deref(x)))
      ensures Use() == AfterInsert(old(Use()), n, maxSize)
    {
      if n != 0 {
        if size + n <= cap {
          InsertInPlace(position, n, x);
        } else {
          InsertReallocating(position, n, x);
        }
      }
    }

    method Reserve(n: nat)
      requires Valid() && n <= maxSize
      modifies this
      ensures Valid() && (data == old(data) || fresh(data)) && Contents() == old(Contents())
      ensures cap == if n > old(cap) then n else old(cap)
    {
      if n > cap {
        var block, address := Allocate(n);
        CopyWords(data, 0, size, block, 0);
        assert block[..size] == Contents();
        data, base, cap := block, address, n;
      }
    }

    method Erase(first: nat, last: nat) returns (next: nat)
      requires Valid() && first <= last <= size
      modifies this, data
      ensures Valid() && data == old(data) && cap == old(cap) && next == first
      ensures Contents() == Erased(old(Contents()), first, last)
    {
      hide Erased;
      if first == last {
        IsErased(Contents(), Contents(), first, last);
        return first;
      }
      var src, result := last, first;
      while src < size
        invariant last <= src <= size && result == first + (src - last)
        invariant size == old(size) && data == old(data) && base == old(base) && cap == old(cap)
        invariant forall i :: first <= i < result ==> data[i] == old(data[i - first + last])
        invariant forall i :: 0 <= i < cap && !(first <= i < result) ==> data[i] == old(data[i])
      {
        data[result] := data[src];
        src, result := src + 1, result + 1;
      }
      size := size - (last - first);
      IsErased(Contents(), old(Contents()), first, last);
      return first;
    }

    method Resize(sz: nat, x: Address<T>)
      requires Valid() && ValidRef(x) && sz <= maxSize
      modifies this, data
      ensures Valid() && (data == old(data) || fresh(data))
      ensures Contents() ==
              if sz > old(size) then old(Contents()) + Repeat(sz - old(size), old(Deref(x))) else old(Contents())[..sz]
    {
      if sz > size {
        Insert(size, sz - size, x);
      } else if sz < size {
        var _ := Erase(sz, size);
      }
    }
  }
}

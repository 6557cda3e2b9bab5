// The vector of non-trivial elements, include/mslcpp/vector.h: __vector_imp
// with IsPOD false over __vector_deleter.  data_ == 0 is a buffer of no cells.
module NonPodVector {
  import opened RawStorage
  import opened Basics
  import opened GrowthPolicy

  class Vector<T(0)> {
    var buf: Buffer<T>
    var size: nat
    var cap: nat
    const maxSize: nat
    /** Old elements that reallocations have relocated so far. */
    ghost var moved: nat

    /** Exactly the cells below size hold objects. */
    ghost predicate Valid()
      reads this, buf
    {
      && size <= cap <= maxSize < SPACE32 && buf.cells.Length == cap
      && buf.Ready() && buf.AllLive(0, size) && buf.NoneLive(size, cap)
    }

    ghost function Contents(): (s: seq<T>)
      requires Valid()
      reads this, buf, buf.cells
      ensures |s| == size
    {
      buf.cells[..size]
    }

    ghost function Use(): Usage
      reads this
    {
      Usage(size, cap, moved)
    }

    /** What *x stands for: valid references are to live elements. */
    ghost predicate ValidRef(x: Ref<T>)
      reads this
    {
      x.Element? ==> x.index < size
    }

    ghost function Referent(x: Ref<T>): T
      requires Valid() && ValidRef(x)
      reads this, buf, buf.cells
    {
      if x.Element? then Contents()[x.index] else x.value
    }

    constructor (maxSize: nat)
      requires maxSize < SPACE32
      ensures Valid() && fresh(buf) && fresh(buf.cells)
      ensures this.maxSize == maxSize && Contents() == [] && Use() == Usage(0, 0, 0)
    {
      this.maxSize := maxSize;
      buf := new Buffer(0);
      size, cap, moved := 0, 0, 0;
    }

    /** The copy constructor: init over the elements of x. */
    constructor CopyOf(x: Vector<T>)
      requires x.Valid()
      ensures Valid() && fresh(buf) && fresh(buf.cells)
      ensures maxSize == x.maxSize && Contents() == x.Contents() && cap == size && moved == 0
    {
      maxSize := x.maxSize;
      buf := new Buffer(x.size);
      size, cap, moved := x.size, x.size, 0;
      new;
      buf.CopyConstruct(0, x.buf, 0, x.size);
    }

    /** Takes over the new storage; the old one is cleared and released. */
    method Adopt(tmp: Buffer<T>, tmpSize: nat, tmpCap: nat)
      requires buf.Ready() && buf.AllLive(0, size) && buf.NoneLive(size, buf.cells.Length)
      requires tmp != buf && tmp.cells != buf.cells
      modifies this, buf, buf.cells
      ensures buf == tmp && size == tmpSize && cap == tmpCap && moved == old(moved) + old(size)
      ensures old(buf).Ready() && old(buf).NoneLive(0, old(buf).cells.Length)
    {
      var old_, oldSize := buf, size;
      buf, size, cap := tmp, tmpSize, tmpCap;
      moved := moved + oldSize;
      old_.DestroyDown(0, oldSize);
    }

    /** All objects of the storage that was replaced are gone. */
    twostate predicate Released(before: Buffer<T>)
      reads this, before
    {
      buf != before ==> fresh(buf) && fresh(buf.cells) && before.NoneLive(0, before.cells.Length)
    }

    method Reserve(n: nat)
      requires Valid() && n <= maxSize
      modifies this, buf, buf.cells
      ensures Valid() && Contents() == old(Contents())
      ensures cap == if n > old(cap) then n else old(cap)
      ensures Released(old(buf))
    {
      if n > cap {
        var tmp := new Buffer<T>(n);
        tmp.CopyConstruct(0, buf, 0, size);
        assert tmp.cells[..size] == buf.cells[..size];
        Adopt(tmp, size, n);
      }
    }

    /** The cells hold s[..position], a gap of n cells, s[position..]; the cells
        of the gap from `unfilled` on hold v already, as does *xr. */
    ghost predicate GapOpen(s: seq<T>, position: nat, n: nat, unfilled: nat, v: T, xr: Ref<T>)
      requires position <= |s| && unfilled <= n
      reads this, buf, buf.cells
    {
      && Valid() && size == |s| + n && buf.Holds(xr) && buf.Deref(xr) == v
      && (forall i :: 0 <= i < position ==> buf.cells[i] == s[i])
      && (forall i :: position + unfilled <= i < position + n ==> buf.cells[i] == v)
      && (forall i :: position + n <= i < size ==> buf.cells[i] == s[i - n])
    }

    /** Constructs n copies of *x past the end. */
    method AppendCopies(n: nat, x: Ref<T>)
      requires Valid() && ValidRef(x) && size + n <= cap
      modifies this, buf, buf.cells
      ensures Valid() && buf == old(buf) && cap == old(cap) && moved == old(moved) && size == old(size) + n
      ensures forall i :: 0 <= i < old(size) ==> buf.cells[i] == old(buf.cells[i])
      ensures forall i :: old(size) <= i < size ==> buf.cells[i] == old(Referent(x))
    {
      buf.FillConstruct(size, n, buf, x);
      size := size + n;
    }

    /** Constructs copies of the elements [first, last) past the end. */
    method AppendOwn(first: nat, last: nat)
      requires Valid() && first <= last <= size && size + (last - first) <= cap
      modifies this, buf, buf.cells
      ensures Valid() && buf == old(buf) && cap == old(cap) && moved == old(moved)
      ensures size == old(size) + (last - first)
      ensures forall i :: 0 <= i < old(size) ==> buf.cells[i] == old(buf.cells[i])
      ensures forall i :: old(size) <= i < size ==> buf.cells[i] == old(buf.cells[i - size + first])
    {
      buf.CopyConstruct(size, buf, first, last);
      size := size + (last - first);
    }

    /** More new elements than old ones behind them: the surplus is constructed
        past the end, then the whole tail behind it. */
    method OpenWideGap(position: nat, n0: nat, x: Ref<T>) returns (n: nat)
      requires Valid() && ValidRef(x) && position <= size && size + n0 <= cap
      requires n0 > size - position
      modifies this, buf, buf.cells
      ensures buf == old(buf) && cap == old(cap) && moved == old(moved) && n <= n0
      ensures GapOpen(old(Contents()), position, n0, n, old(Referent(x)), x)
    {
      hide GapOpen;
      var oldEnd := size;
      var numMove := oldEnd - position;
      n := n0;
      AppendCopies(n - numMove, x);
      n := numMove;
      AppendOwn(position, oldEnd);
      WideGapOpen(old(Contents()), position, n0, old(Referent(x)), x);
    }

    /** What the two constructions leave is the open gap. */
    lemma WideGapOpen(s: seq<T>, position: nat, n: nat, v: T, x: Ref<T>)
      requires Valid() && size == |s| + n && position <= |s| && n > |s| - position
      requires forall i :: 0 <= i < |s| ==> buf.cells[i] == s[i]
      requires forall i :: |s| <= i < position + n ==> buf.cells[i] == v
      requires forall i :: position + n <= i < size ==> buf.cells[i] == s[i - n]
      requires x.Element? ==> x.index < |s| && v == s[x.index]
      requires x.Outside? ==> v == x.value
      ensures GapOpen(s, position, n, |s| - position, v, x)
    {
    }

    /** At least as many old elements: the last n are constructed past the end,
        the others shift, and a reference to a shifted element follows it. */
    method OpenNarrowGap(position: nat, n: nat, x: Ref<T>) returns (xr: Ref<T>)
      requires Valid() && ValidRef(x) && position <= size && size + n <= cap
      requires 0 < n <= size - position
      modifies this, buf, buf.cells
      ensures buf == old(buf) && cap == old(cap) && moved == old(moved)
      ensures GapOpen(old(Contents()), position, n, n, old(Referent(x)), xr)
    {
      hide GapOpen;
      var oldEnd := size;
      var numMove := oldEnd - position;
      xr := x;
      AppendOwn(oldEnd - n, oldEnd);
      if xr.Element? && oldEnd - (numMove - n) <= xr.index < oldEnd {
        xr := Element(xr.index + n);
      }
      buf.CopyBackward(position, oldEnd - n, oldEnd);
      NarrowGapOpen(old(Contents()), position, n, old(Referent(x)), x, xr);
    }

    /** What the shift leaves is the open gap. */
    lemma NarrowGapOpen(s: seq<T>, position: nat, n: nat, v: T, x: Ref<T>, xr: Ref<T>)
      requires Valid() && size == |s| + n && 0 < n <= |s| - position && position <= |s|
      requires forall i :: 0 <= i < position + n ==> buf.cells[i] == s[i]
      requires forall i :: position + n <= i < size ==> buf.cells[i] == s[i - n]
      requires x.Element? ==> x.index < |s| && v == s[x.index]
      requires x.Outside? ==> v == x.value
      requires xr == if x.Element? && x.index >= position + n then Element(x.index + n) else x
      ensures GapOpen(s, position, n, n, v, xr)
    {
    }

    /** Room is available: a gap is opened and *x assigned to what is left of it. */
    method InsertInPlace(position: nat, n: nat, x: Ref<T>)
      requires Valid() && ValidRef(x) && position <= size && 0 < n && size + n <= cap
      modifies this, buf, buf.cells
      ensures Valid() && buf == old(buf) && cap == old(cap) && moved == old(moved)
      ensures Contents() == Inserted(old(Contents()), position, n, old(Referent(x)))
    {
      hide Inserted;
      var xr, left := x, n;
      if n > size - position {
        left := OpenWideGap(position, n, x);
      } else {
        xr := OpenNarrowGap(position, n, x);
      }
      buf.FillAssign(position, left, xr);
      IsInserted(Contents(), old(Contents()), position, n, old(Referent(x)));
    }

    /** No room: everything is copied to larger storage, the n copies in between. */
    method InsertReallocating(position: nat, n: nat, x: Ref<T>)
      requires Valid() && ValidRef(x) && position <= size && 0 < n
      requires cap < size + n <= maxSize
      modifies this, buf, buf.cells
      ensures Valid() && Released(old(buf))
      ensures Contents() == Inserted(old(Contents()), position, n, old(Referent(x)))
      ensures Use() == AfterInsert(old(Use()), n, maxSize)
    {
      var newSize := size + n;
      var newCap := GrowCapacity(newSize, cap, maxSize);
      var tmp := CopyAround(position, n, x, newCap);
      Adopt(tmp, newSize, newCap);
    }

    /** The first two copying loops into fresh storage: what stands before the
        insertion, and the new elements. */
    method CopyBefore(position: nat, n: nat, x: Ref<T>, newCap: nat) returns (tmp: Buffer<T>)
      requires Valid() && ValidRef(x) && position <= size && size + n <= newCap
      ensures fresh(tmp) && fresh(tmp.cells) && tmp.cells.Length == newCap
      ensures tmp.Ready() && tmp.AllLive(0, position + n) && tmp.NoneLive(position + n, newCap)
      ensures forall i :: 0 <= i < position ==> tmp.cells[i] == buf.cells[i]
      ensures forall i :: position <= i < position + n ==> tmp.cells[i] == Referent(x)
    {
      tmp := new Buffer<T>(newCap);
      tmp.CopyConstruct(0, buf, 0, position);
      tmp.FillConstruct(position, n, buf, x);
    }

    /** All three, the last for what stands behind the insertion. */
    method CopyAround(position: nat, n: nat, x: Ref<T>, newCap: nat) returns (tmp: Buffer<T>)
      requires Valid() && ValidRef(x) && position <= size && size + n <= newCap
      ensures fresh(tmp) && fresh(tmp.cells) && tmp.cells.Length == newCap
      ensures tmp.Ready() && tmp.AllLive(0, size + n) && tmp.NoneLive(size + n, newCap)
      ensures tmp.cells[..size + n] == Inserted(Contents(), position, n, Referent(x))
    {
      hide Inserted;
      tmp := CopyBefore(position, n, x, newCap);
      tmp.CopyConstruct(position + n, buf, position, size);
      CopiedAround(tmp, position, n, Referent(x));
    }

    lemma CopiedAround(tmp: Buffer<T>, position: nat, n: nat, v: T)
      requires Valid() && position <= size && size + n <= tmp.cells.Length
      requires forall i :: 0 <= i < position ==> tmp.cells[i] == buf.cells[i]
      requires forall i :: position <= i < position + n ==> tmp.cells[i] == v
      requires forall i :: position + n <= i < size + n ==> tmp.cells[i] == buf.cells[i - n]
      ensures tmp.cells[..size + n] == Inserted(Contents(), position, n, v)
    {
      hide Inserted;
      IsInserted(tmp.cells[..size + n], Contents(), position, n, v);
    }

    /** insert(position, n, x); a length error is the caller's to avoid. */
    method Insert(position: nat, n: nat, x: Ref<T>)
      requires Valid() && ValidRef(x) && position <= size
      requires n != 0 ==> n <= maxSize && size <= maxSize - n
      modifies this, buf, buf.cells
      ensures Valid() && Released(old(buf))
      ensures Contents() == Inserted(old(Contents()), position, n, old(Referent(x)))
      ensures Use() == AfterInsert(old(Use()), n, maxSize)
    {
      if n != 0 {
        if size + n <= cap {
          InsertInPlace(position, n, x);
        } else {
          InsertReallocating(position, n, x);
        }
      }
    }

    method PushBack(x: Ref<T>)
      requires Valid() && ValidRef(x) && size < maxSize
      modifies this, buf, buf.cells
      ensures Valid() && Released(old(buf))
      ensures Contents() == old(Contents()) + [old(Referent(x))]
      ensures Use() == AfterInsert(old(Use()), 1, maxSize)
    {
      Insert(size, 1, x);
    }

    method PopBack()
      requires Valid() && size > 0
      modifies this, buf, buf.cells
      ensures Valid() && buf == old(buf) && cap == old(cap)
      ensures Contents() == old(Contents())[..old(size) - 1]
    {
      size := size - 1;
      buf.Destroy(size);
    }

    method Erase(first: nat, last: nat) returns (next: nat)
      requires Valid() && first <= last <= size
      modifies this, buf, buf.cells
      ensures Valid() && buf == old(buf) && cap == old(cap) && next == first
      ensures Contents() == Erased(old(Contents()), first, last)
    {
      hide Erased;
      if first == last {
        IsErased(Contents(), Contents(), first, last);
        return first;
      }
      var e := size;
      var n := e - last;
      if n != 0 {
        buf.CopyForward(last, e, first);
      }
      buf.DestroyUp(first + n, e);
      size := size - (last - first);
      IsErased(Contents(), old(Contents()), first, last);
      return first;
    }

    method Resize(sz: nat, default: T)
      requires Valid() && sz <= maxSize
      modifies this, buf, buf.cells
      ensures Valid() && Released(old(buf))
      ensures Contents() ==
              if sz > old(size) then old(Contents()) + Repeat(sz - old(size), default) else old(Contents())[..sz]
    {
      if sz > size {
        Insert(size, sz - size, Outside(default));
      } else if sz < size {
        var _ := Erase(sz, size);
      }
    }

    method Clear()
      requires Valid()
      modifies this, buf, buf.cells
      ensures Valid() && buf == old(buf) && cap == old(cap) && Contents() == []
    {
      buf.DestroyDown(0, size);
      size := 0;
    }
  }
}

// Uninitialised storage with object lifetimes.  A cell may be constructed only
// while it holds no object, and read, assigned or destroyed only while it does;
// code that verifies against this class constructs and destroys every object
// exactly once.
module RawStorage {

  function Repeat<T>(n: nat, x: T): (r: seq<T>)
    ensures |r| == n && forall i :: 0 <= i < n ==> r[i] == x
  {
    seq(n, _ => x)
  }

  /** s with n copies of v put in at position. */
  function Inserted<T>(s: seq<T>, position: nat, n: nat, v: T): (r: seq<T>)
    requires position <= |s|
    ensures |r| == |s| + n
  {
    s[..position] + Repeat(n, v) + s[position..]
  }

  lemma IsInserted<T>(r: seq<T>, s: seq<T>, position: nat, n: nat, v: T)
    requires position <= |s| && |r| == |s| + n
    requires forall i :: 0 <= i < position ==> r[i] == s[i]
    requires forall i :: position <= i < position + n ==> r[i] == v
    requires forall i :: position + n <= i < |r| ==> r[i] == s[i - n]
    ensures r == Inserted(s, position, n, v)
  {
  }

  function Erased<T>(s: seq<T>, first: nat, last: nat): (r: seq<T>)
    requires first <= last <= |s|
    ensures |r| == |s| - (last - first)
  {
    s[..first] + s[last..]
  }

  lemma IsErased<T>(r: seq<T>, s: seq<T>, first: nat, last: nat)
    requires first <= last <= |s| && |r| == |s| - (last - first)
    requires forall i :: 0 <= i < first ==> r[i] == s[i]
    requires forall i :: first <= i < |r| ==> r[i] == s[i - first + last]
    ensures r == Erased(s, first, last)
  {
  }

  /** A `const T&`: an object elsewhere, or an element of the vector itself. */
  datatype Ref<T> = Outside(value: T) | Element(index: nat)

  class Buffer<T(0)> {
    const cells: array<T>
    ghost var live: seq<bool>

    constructor (n: nat)
      ensures cells.Length == n && fresh(cells)
      ensures Ready() && NoneLive(0, n)
    {
      cells := new T[n];
      live := Repeat(n, false);
    }

    ghost predicate Ready()
      reads this
    {
      |live| == cells.Length
    }

    /** Every cell of [lo, hi) holds an object. */
    ghost predicate AllLive(lo: nat, hi: nat)
      reads this
    {
      hi <= |live| && forall i :: lo <= i < hi ==> live[i]
    }

    ghost predicate NoneLive(lo: nat, hi: nat)
      reads this
    {
      hi <= |live| && forall i :: lo <= i < hi ==> !live[i]
    }

    ghost predicate Holds(x: Ref<T>)
      reads this
    {
      x.Element? ==> x.index < |live| && live[x.index]
    }

    function Deref(x: Ref<T>): T
      requires Ready() && Holds(x)
      reads this, cells
    {
      match x
      case Outside(v) => v
      case Element(i) => cells[i]
    }

    /** Only the cells of [lo, hi) changed their contents. */
    twostate predicate Only(lo: nat, hi: nat)
      reads this, cells
    {
      forall i :: 0 <= i < cells.Length && !(lo <= i < hi) ==> cells[i] == old(cells[i])
    }

    /** The cells of [lo, hi) hold objects or not, as `now` says; the rest did not change. */
    twostate predicate Lifetimes(lo: nat, hi: nat, now: bool)
      reads this
    {
      && Ready() && |live| == |old(live)|
      && forall i :: 0 <= i < |live| ==> live[i] == if lo <= i < hi then now else old(live[i])
    }

    method Construct(p: nat, v: T)
      requires Ready() && p < cells.Length && !live[p]
      modifies this, cells
      ensures Lifetimes(p, p + 1, true) && Only(p, p + 1) && cells[p] == v
    {
      cells[p] := v;
      live := live[p := true];
    }

    /** What the storage holds afterwards is unspecified. */
    method Destroy(p: nat)
      requires Ready() && p < cells.Length && live[p]
      modifies this, cells
      ensures Lifetimes(p, p + 1, false) && Only(p, p + 1)
    {
      cells[p] := *;
      live := live[p := false];
    }

    method Assign(p: nat, v: T)
      requires Ready() && p < cells.Length && live[p]
      modifies cells
      ensures Only(p, p + 1) && cells[p] == v
    {
      cells[p] := v;
    }

    /** Destroys [lo, hi) from the top down, as __vector_deleter::clear does. */
    method DestroyDown(lo: nat, hi: nat)
      requires Ready() && lo <= hi && AllLive(lo, hi)
      modifies this, cells
      ensures Lifetimes(lo, hi, false) && Only(lo, hi)
    {
      var e := hi;
      while e > lo
        invariant lo <= e <= hi && Lifetimes(e, hi, false) && Only(lo, hi)
      {
        e := e - 1;
        Destroy(e);
      }
    }

    /** Destroys [lo, hi) from the bottom up, as erase does. */
    method DestroyUp(lo: nat, hi: nat)
      requires Ready() && lo <= hi && AllLive(lo, hi)
      modifies this, cells
      ensures Lifetimes(lo, hi, false) && Only(lo, hi)
    {
      var p := lo;
      while p < hi
        invariant lo <= p <= hi && Lifetimes(lo, p, false) && Only(lo, hi)
      {
        Destroy(p);
        p := p + 1;
      }
    }

    /** Constructs copies of src[first, last) at p.  The source may be this very
        buffer: the two ranges cannot meet, for only one of them holds objects. */
    method CopyConstruct(p0: nat, src: Buffer<T>, first0: nat, last: nat)
      requires Ready() && src.Ready() && first0 <= last && src.AllLive(first0, last)
      requires NoneLive(p0, p0 + (last - first0))
      requires src != this ==> src.cells != cells
      modifies this, cells
      ensures Lifetimes(p0, p0 + (last - first0), true) && Only(p0, p0 + (last - first0))
      ensures forall i :: p0 <= i < p0 + (last - first0) ==> cells[i] == old(src.cells[first0 + (i - p0)])
    {
      var first, p := first0, p0;
      while first < last
        invariant first0 <= first <= last && p == p0 + (first - first0)
        invariant Lifetimes(p0, p, true) && Only(p0, p)
        invariant forall i :: first0 <= i < last ==> old(src.live[i]) && src.cells[i] == old(src.cells[i])
        invariant forall i :: p0 <= i < p ==> cells[i] == old(src.cells[first0 + (i - p0)])
      {
        Construct(p, src.cells[first]);
        first, p := first + 1, p + 1;
      }
    }

    /** Constructs n copies of *x at p, reading *x each time. */
    method FillConstruct(p0: nat, n: nat, owner: Buffer<T>, x: Ref<T>)
      requires Ready() && owner.Ready() && owner.Holds(x)
      requires NoneLive(p0, p0 + n)
      requires owner != this ==> owner.cells != cells
      modifies this, cells
      ensures Lifetimes(p0, p0 + n, true) && Only(p0, p0 + n)
      ensures forall i :: p0 <= i < p0 + n ==> cells[i] == old(owner.Deref(x))
    {
      var p, left := p0, n;
      while left != 0
        invariant 0 <= left <= n && p == p0 + (n - left)
        invariant Lifetimes(p0, p, true) && Only(p0, p)
        invariant forall i :: p0 <= i < p ==> cells[i] == old(owner.Deref(x))
      {
        Construct(p, owner.Deref(x));
        p, left := p + 1, left - 1;
      }
    }

    /** Assigns *xr to [p0, p0 + n), reading *xr each time; xr may lie inside. */
    method FillAssign(p0: nat, n: nat, xr: Ref<T>)
      requires Ready() && Holds(xr) && AllLive(p0, p0 + n)
      modifies cells
      ensures Only(p0, p0 + n)
      ensures forall i :: p0 <= i < p0 + n ==> cells[i] == old(Deref(xr))
    {
      var p, left := p0, n;
      while left != 0
        invariant 0 <= left <= n && p == p0 + (n - left)
        invariant Deref(xr) == old(Deref(xr)) && Only(p0, p)
        invariant forall i :: p0 <= i < p ==> cells[i] == old(Deref(xr))
      {
        Assign(p, Deref(xr));
        p, left := p + 1, left - 1;
      }
    }

    /** std::copy onto a range that starts no later: the gap is closed upwards. */
    method CopyForward(first0: nat, last: nat, result0: nat)
      requires Ready() && result0 <= first0 <= last && AllLive(result0, last)
      modifies cells
      ensures Only(result0, result0 + (last - first0))
      ensures forall i :: result0 <= i < result0 + (last - first0) ==> cells[i] == old(cells[first0 + (i - result0)])
    {
      var first, result := first0, result0;
      while first < last
        invariant first0 <= first <= last && result == result0 + (first - first0)
        invariant forall i :: result0 <= i < result ==> cells[i] == old(cells[first0 + (i - result0)])
        invariant Only(result0, result)
      {
        Assign(result, cells[first]);
        first, result := first + 1, result + 1;
      }
    }

    /** std::copy_backward onto a range that ends no earlier. */
    method CopyBackward(first: nat, last0: nat, result0: nat)
      requires Ready() && first <= last0 <= result0 && AllLive(first, result0)
      modifies cells
      ensures Only(first + (result0 - last0), result0)
      ensures forall i :: first + (result0 - last0) <= i < result0 ==> cells[i] == old(cells[i - (result0 - last0)])
    {
      var last, result := last0, result0;
      while last > first
        invariant first <= last <= last0 && result == last + (result0 - last0)
        invariant forall i :: result <= i < result0 ==> cells[i] == old(cells[i - (result0 - last0)])
        invariant Only(result, result0)
      {
        last, result := last - 1, result - 1;
        Assign(result, cells[last]);
      }
    }
  }
}

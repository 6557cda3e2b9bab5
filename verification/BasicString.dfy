// std::basic_string<char> of include/mslcpp/string.h.
module BasicString {
  import opened Basics
  import opened RawStorage

  /** The longest contents for which rounding leaves room for the terminator. */
  const LENGTH_LIMIT: nat := SPACE32 - 5

  const NUL: char := '\0'

  /** __round in 32-bit arithmetic. */
  function Round(n: nat): nat
    requires n < SPACE32
  {
    (n + 3 - n % 4) % SPACE32
  }

  /** Rounding does not wrap: the result is n or up to three more, and one less
      than a multiple of four. */
  lemma RoundIs(n: nat)
    requires n < SPACE32
    ensures Round(n) == n + 3 - n % 4 < SPACE32 && n <= Round(n) <= n + 3 && Round(n) % 4 == 3
  {
    var r := n % 4;
    assert n == n / 4 * 4 + r;
    assert n / 4 * 4 + 3 < SPACE32;
  }

  // ---- the growth loop of change_size ----

  function Pow2(k: nat): (p: nat)
    ensures p > 0
  {
    if k == 0 then 1 else 2 * Pow2(k - 1)
  }

  /** Doubling in 32 bits. */
  function Twice(v: nat): nat {
    2 * v % SPACE32
  }

  /** a doubled j times. */
  function Doubling(a: nat, j: nat): nat {
    if j == 0 then a else Twice(Doubling(a, j - 1))
  }

  function Largest(a: nat, b: nat): (r: nat)
    ensures a <= r && b <= r && (r == a || r == b)
  {
    if a < b then b else a
  }

  /** A capacity never allocated, or one that rounding gives. */
  predicate Rounded(capacity: nat) {
    capacity == 0 || capacity % 4 == 3
  }

  /** Whether doubling the block, in 32 bits, ever makes it larger than n. */
  predicate Grows(capacity: nat, n: nat) {
    Exceeds(Largest(capacity, 3) + 1, n)
  }

  predicate Exceeds(a: nat, n: nat) {
    exists j :: 0 <= j <= 30 && Doubling(a, j) > n
  }

  lemma {:induction false} Pow2Sum(i: nat, j: nat)
    ensures Pow2(i + j) == Pow2(i) * Pow2(j)
  {
    if i > 0 {
      Pow2Sum(i - 1, j);
      assert Pow2(i + j) == 2 * (Pow2(i - 1) * Pow2(j));
    }
  }

  lemma SpaceIsPow2()
    ensures Pow2(32) == SPACE32
  {
    assert Pow2(8) == 0x100;
    Pow2Sum(8, 8);
    Pow2Sum(16, 16);
  }

  /** After thirty doublings of a multiple of four nothing is left. */
  lemma {:induction false} DoublingDivides(a: nat, j: nat) returns (q: nat)
    requires a % 4 == 0 && a < SPACE32 && j <= 30
    ensures Doubling(a, j) == Pow2(j + 2) * q && Doubling(a, j) < SPACE32
  {
    if j == 0 {
      assert Pow2(2) == 2 * Pow2(1) == 4;
      q := a / 4;
    } else {
      q := DoublingDivides(a, j - 1);
      hide Twice, Pow2;
      q := TwiceDivides(Doubling(a, j - 1), j + 1, q);
    }
  }

  lemma TwiceDivides(v: nat, k: nat, q: nat) returns (q': nat)
    requires v == Pow2(k) * q && v < SPACE32 && k < 32
    ensures Twice(v) == Pow2(k + 1) * q' && Twice(v) < SPACE32
  {
    ModOnce(2 * v, SPACE32);
    Pow2Next(k);
    hide Pow2, Twice;
    var m := BlocksIn(k + 1);
    TwiceMultiple(v, Pow2(k), q);
    q' := ReducedMultiple(Pow2(k + 1), q, m, 2 * v);
  }

  lemma Pow2Next(k: nat)
    ensures Pow2(k + 1) == 2 * Pow2(k)
  {
  }

  lemma TwiceMultiple(v: nat, p: nat, q: nat)
    requires v == p * q
    ensures 2 * v == 2 * p * q
  {
  }

  lemma BlocksIn(k: nat) returns (m: nat)
    requires k <= 32
    ensures SPACE32 == Pow2(k) * m
  {
    SpaceIsPow2();
    m := Pow2(32 - k);
    hide Pow2;
    Pow2Sum(k, 32 - k);
  }

  lemma ReducedMultiple(p: nat, q: nat, m: nat, v: nat) returns (q': nat)
    requires p > 0 && v == p * q
    ensures (if v < p * m then v else v - p * m) == p * q'
  {
    q' := q;
    if v >= p * m {
      assert v - p * m == p * (q - m);
      NotNegative(p, q - m);
      q' := q - m;
    }
  }

  lemma NotNegative(p: nat, d: int)
    requires p > 0 && p * d >= 0
    ensures d >= 0
  {
  }

  lemma DoublingStep(a: nat, j: nat)
    ensures Doubling(a, 0) == a && Doubling(a, j + 1) == Twice(Doubling(a, j))
  {
  }

  lemma {:induction false} GoneStaysGone(a: nat, i: nat, j: nat)
    requires Doubling(a, i) == 0 && i <= j
    ensures Doubling(a, j) == 0
  {
    if i < j {
      GoneStaysGone(a, i, j - 1);
    }
  }

  /** The size of a block of c + 1 characters in 32 bits. */
  function Remaining(c: nat): nat {
    if c + 1 == SPACE32 then 0 else c + 1
  }

  /** The capacity after c. */
  function NextCapacity(c: nat): nat {
    Round(2 * c % SPACE32)
  }

  /** Doubling a block of c + 1 characters through the capacity. */
  lemma RoundDoubles(c: nat)
    requires c % 4 == 3 && c + 1 < SPACE32
    ensures NextCapacity(c) < SPACE32 && NextCapacity(c) % 4 == 3
    ensures Remaining(NextCapacity(c)) == Twice(Remaining(c))
    ensures 2 * (c + 1) <= SPACE32 ==> NextCapacity(c) == 2 * c + 1
  {
    ModOnce(2 * c, SPACE32);
    ModOnce(2 * c + 2, SPACE32);
    var v := 2 * c % SPACE32;
    RoundIs(v);
    assert v % 4 == 2;
    assert Round(v) == v + 1;
    if v + 2 < SPACE32 {
      ModOnce(v + 2, SPACE32);
    }
  }

  /** The loop ends for every 32-bit length and capacity; the block of newCap + 1
      characters exists if and only if some doubling exceeds n before nothing is
      left, and up to half the address space that is always so. */
  method GrowCapacity(n: nat, capacity: nat) returns (newCap: nat)
    requires capacity < n < SPACE32 && Rounded(capacity)
    ensures n <= newCap < SPACE32 && newCap % 4 == 3
    ensures newCap + 1 < SPACE32 <==> Grows(capacity, n)
    ensures n < SPACE32 / 2 ==> (newCap == 3 || newCap >= 2 * capacity) && newCap <= 2 * n + 1 && newCap + 1 < SPACE32
  {
    hide Doubling, Twice, NextCapacity;
    newCap := Largest(capacity, 3);
    ghost var a, j := newCap + 1, 0;
    DoublingStep(a, 0);
    while newCap < n
      invariant newCap < SPACE32 && newCap % 4 == 3 && 0 <= j <= 30
      invariant Doubling(a, j) == Remaining(newCap)
      invariant forall i :: 0 <= i < j ==> Doubling(a, i) <= n
      invariant n < SPACE32 / 2 ==> newCap <= 2 * n + 1 && newCap + 1 < SPACE32
      invariant n < SPACE32 / 2 ==> newCap == Largest(capacity, 3) || newCap >= 2 * capacity
      decreases 30 - j
    {
      NotAllGone(a, j);
      DoublingStep(a, j);
      RoundDoubles(newCap);
      newCap := NextCapacity(newCap);
      j := j + 1;
    }
    if newCap + 1 == SPACE32 {
      forall i | 0 <= i <= 30
        ensures Doubling(a, i) <= n
      {
        if i >= j {
          GoneStaysGone(a, j, i);
        }
      }
    } else {
      assert Doubling(a, j) > n;
    }
  }

  lemma NotAllGone(a: nat, j: nat)
    requires a % 4 == 0 && a < SPACE32 && j <= 30 && Doubling(a, j) > 0
    ensures j < 30
  {
    hide Doubling, Pow2;
    var q := DoublingDivides(a, j);
    SpaceIsPow2();
  }

  /** Lengths up to half the address space always find a block. */
  lemma ShortGrows(capacity: nat, n: nat)
    requires capacity < n < SPACE32 / 2 && Rounded(capacity)
    ensures Grows(capacity, n)
  {
    var c := Largest(capacity, 3);
    DoublesPast(c + 1, n, 0);
  }

  /** A longer text for which no block is found: the loop ends with newCap + 1
      back at nothing. */
  lemma LongMayNotGrow()
    ensures Rounded(0xBFFF_FFFF) && !Grows(0xBFFF_FFFF, 0xD000_0000)
  {
    var a := 0xC000_0000;
    DoublingStep(a, 0);
    DoublingStep(a, 1);
    hide Doubling;
    forall j | 0 <= j <= 30
      ensures Doubling(a, j) <= 0xD000_0000
    {
      if j >= 2 {
        GoneStaysGone(a, 2, j);
      }
    }
  }

  lemma {:induction false} DoublesPast(a: nat, n: nat, j: nat)
    requires a % 4 == 0 && a < SPACE32 && j <= 30 && 0 < Doubling(a, j) < SPACE32 && n < SPACE32 / 2
    ensures Exceeds(a, n)
    decreases 30 - j
  {
    if Doubling(a, j) <= n {
      NotAllGone(a, j);
      DoublingStep(a, j);
      ModOnce(2 * Doubling(a, j), SPACE32);
      DoublesPast(a, n, j + 1);
    }
  }

  function Min(a: nat, b: nat): (r: nat)
    ensures r <= a && r <= b && (r == a || r == b)
  {
    if a < b then a else b
  }

  /** replace(pos, n1, n2, c) on the contents. */
  function Replaced(s: string, pos: nat, n1: nat, n2: nat, c: char): (r: string)
    requires pos <= |s|
    ensures |r| == |s| - Min(n1, |s| - pos) + n2
  {
    s[..pos] + Repeat(n2, c) + s[pos + Min(n1, |s| - pos)..]
  }

  /** substr(pos, n) */
  function Slice(s: string, pos: nat, n: nat): string
    requires pos <= |s|
  {
    s[pos..pos + Min(n, |s| - pos)]
  }

  /** Replacing a prefix by nothing drops it. */
  lemma ErasedFront(s: string, pos: nat)
    requires pos <= |s|
    ensures Replaced(s, 0, pos, 0, NUL) == s[pos..]
  {
  }

  /** The front of what an erased front leaves. */
  lemma CutRest(r: string, rest: string, s: string, pos: nat, n: nat)
    requires pos <= |s| && rest == s[pos..] && |r| == Min(n, |s| - pos)
    requires forall i :: 0 <= i < |r| ==> r[i] == rest[i]
    ensures r == Slice(s, pos, n)
  {
    assert r == rest[..|r|];
  }

  lemma IsSlice(r: string, s: string, pos: nat, n: nat)
    requires pos <= |s| && |r| == Min(n, |s| - pos)
    requires forall i :: 0 <= i < |r| ==> r[i] == s[pos + i]
    ensures r == Slice(s, pos, n)
  {
  }

  /** memcpy between different blocks. */
  method CopyChars(dst: array<char>, to: nat, src: array<char>, from: nat, n: nat)
    requires dst != src && to + n <= dst.Length && from + n <= src.Length
    modifies dst
    ensures forall i :: to <= i < to + n ==> dst[i] == src[from + (i - to)]
    ensures forall i :: 0 <= i < dst.Length && !(to <= i < to + n) ==> dst[i] == old(dst[i])
  {
    forall i | to <= i < to + n {
      dst[i] := src[from + (i - to)];
    }
  }

  /** memmove within a block. */
  method MoveChars(a: array<char>, to: nat, from: nat, n: nat)
    requires to + n <= a.Length && from + n <= a.Length
    modifies a
    ensures forall i :: to <= i < to + n ==> a[i] == old(a[from + (i - to)])
    ensures forall i :: 0 <= i < a.Length && !(to <= i < to + n) ==> a[i] == old(a[i])
  {
    forall i | to <= i < to + n {
      a[i] := a[from + (i - to)];
    }
  }

  /** memset. */
  method SetChars(a: array<char>, to: nat, n: nat, c: char)
    requires to + n <= a.Length
    modifies a
    ensures forall i :: to <= i < to + n ==> a[i] == c
    ensures forall i :: 0 <= i < a.Length && !(to <= i < to + n) ==> a[i] == old(a[i])
  {
    forall i | to <= i < to + n {
      a[i] := c;
    }
  }

  /** The tail behind the removed part moves, then the fill is written. */
  method MoveAndFill(a: array<char>, size: nat, pos: nat, xlen: nat, n2: nat, c: char)
    requires pos + xlen <= size <= a.Length && size - xlen + n2 <= a.Length
    modifies a
    ensures forall i :: 0 <= i < pos ==> a[i] == old(a[i])
    ensures forall i :: pos <= i < pos + n2 ==> a[i] == c
    ensures forall i :: pos + n2 <= i < size - xlen + n2 ==> a[i] == old(a[i - n2 + xlen])
  {
    MoveChars(a, pos + n2, pos + xlen, size - (pos + xlen));
    SetChars(a, pos, n2, c);
  }

  lemma IsReplaced(r: string, s: string, pos: nat, n1: nat, n2: nat, c: char)
    requires pos <= |s|
    requires var xlen := Min(n1, |s| - pos);
             && |r| == |s| - xlen + n2
             && (forall i :: 0 <= i < pos ==> r[i] == s[i])
             && (forall i :: pos <= i < pos + n2 ==> r[i] == c)
             && (forall i :: pos + n2 <= i < |r| ==> r[i] == s[i - n2 + xlen])
    ensures r == Replaced(s, pos, n1, n2, c)
  {
  }

  /** What MoveAndFill leaves, as contents. */
  lemma FilledIsReplaced(before: string, after: string, size: nat, pos: nat, n1: nat, n2: nat, c: char)
    requires pos <= size <= |before| == |after| && size - Min(n1, size - pos) + n2 <= |after|
    requires forall i :: 0 <= i < pos ==> after[i] == before[i]
    requires forall i :: pos <= i < pos + n2 ==> after[i] == c
    requires var xlen := Min(n1, size - pos);
             forall i :: pos + n2 <= i < size - xlen + n2 ==> after[i] == before[i - n2 + xlen]
    ensures after[..size - Min(n1, size - pos) + n2] == Replaced(before[..size], pos, n1, n2, c)
  {
    hide Replaced, Min;
    IsReplaced(after[..size - Min(n1, size - pos) + n2], before[..size], pos, n1, n2, c);
  }

  class BasicString {
    var data: array?<char>
    var size: nat
    var capacity: nat

    ghost predicate Valid()
      reads this
    {
      && capacity + 1 < SPACE32 && Rounded(capacity)
      && if data == null then size == capacity == 0 else data.Length == capacity + 1 && size <= capacity
    }

    ghost function Contents(): (s: string)
      requires Valid()
      reads this, data
      ensures |s| == size
    {
      if data == null then [] else data[..size]
    }

    /** The character after the contents is a terminator. */
    ghost predicate Terminated()
      requires Valid()
      reads this, data
    {
      data != null ==> data[size] == '\0'
    }

    /** Whether change_size finds a block for n characters; up to half the
        address space it always does. */
    predicate Fits(n: nat)
      reads this
    {
      n <= capacity || (n < SPACE32 && Grows(capacity, n))
    }

    constructor ()
      ensures Valid() && Terminated() && Contents() == [] && data == null
    {
      data, size, capacity := null, 0, 0;
    }

    /** Whether the storage is the old one or new. */
    twostate predicate Owned(before: array?<char>)
      reads this
    {
      data == before || fresh(data)
    }

    /** change_size(n, keep) */
    method ChangeSize(n: nat, keep: bool)
      requires Valid() && Fits(n)
      modifies this, data
      ensures Valid() && Terminated() && Owned(old(data)) && size == n
      ensures keep ==> forall i :: 0 <= i < n && i < old(size) ==> Contents()[i] == old(Contents()[i])
      ensures n <= old(capacity) ==> data == old(data) && capacity == old(capacity)
      ensures old(data) != null || n > 0 ==> data != null
    {
      if n > capacity {
        var newCap := GrowCapacity(n, capacity);
        var p := new char[newCap + 1];
        if data != null {
          if keep {
            CopyChars(p, 0, data, 0, size);
          }
        }
        data := p;
        capacity := newCap;
      }
      if data != null {
        data[n] := NUL;
      }
      size := n;
    }

    /** append(s, n); the source is outside this string's storage.  Appending
        nothing writes nothing, not even a missing terminator. */
    method Append(s: string)
      requires Valid() && Fits(size + |s|)
      modifies this, data
      ensures Valid() && Owned(old(data)) && (Terminated() <==> old(Terminated()) || |s| > 0)
      ensures Contents() == old(Contents()) + s
    {
      if |s| != 0 {
        var oldSize := size;
        ChangeSize(oldSize + |s|, true);
        forall i | 0 <= i < |s| {
          data[oldSize + i] := s[i];
        }
      }
    }

    /** assign(s, n); the source is outside this string's storage. */
    method AssignChars(s: string)
      requires Valid() && Fits(|s|)
      modifies this, data
      ensures Valid() && Terminated() && Owned(old(data)) && Contents() == s
    {
      ChangeSize(|s|, false);
      if data != null {
        forall i | 0 <= i < |s| {
          data[i] := s[i];
        }
      }
    }

    /** The new block of replace: both ends copied around the fill. */
    method ReplaceInNewBlock(pos: nat, n1: nat, n2: nat, c: char)
      requires Valid() && pos <= size && Min(n1, size - pos) <= size
      requires capacity < n2 + (size - Min(n1, size - pos)) <= LENGTH_LIMIT
      modifies this
      ensures Valid() && Terminated() && fresh(data)
      ensures Contents() == Replaced(old(Contents()), pos, n1, n2, c)
    {
      hide Replaced, Round;
      var xlen := Min(n1, size - pos);
      var newSize := n2 + (size - xlen);
      RoundIs(newSize);
      var newCap := Round(newSize);
      var p := new char[newCap + 1];
      if data != null {
        CopyChars(p, 0, data, 0, pos);
      }
      SetChars(p, pos, n2, c);
      if data != null {
        CopyChars(p, pos + n2, data, pos + xlen, size - (pos + xlen));
      }
      p[newSize] := NUL;
      IsReplaced(p[..newSize], Contents(), pos, n1, n2, c);
      data := p;
      capacity := newCap;
      size := newSize;
    }

    method ReplaceInPlace(pos: nat, n1: nat, n2: nat, c: char)
      requires Valid() && pos <= size && data != null
      requires n2 + (size - Min(n1, size - pos)) <= capacity
      modifies this, data
      ensures Valid() && Terminated() && data == old(data) && capacity == old(capacity)
      ensures Contents() == Replaced(old(Contents()), pos, n1, n2, c)
    {
      hide Replaced, Grows, Rounded;
      var xlen := Min(n1, size - pos);
      var newSize := n2 + (size - xlen);
      ghost var before := data[..];
      MoveAndFill(data, size, pos, xlen, n2, c);
      ghost var after := data[..];
      FilledIsReplaced(before, after, size, pos, n1, n2, c);
      data[newSize] := NUL;
      assert data[..newSize] == after[..newSize];
      size := newSize;
    }

    /** replace(pos, n1, n2, c); a position or length error is the caller's to avoid. */
    method Replace(pos: nat, n1: nat, n2: nat, c: char)
      requires Valid() && pos <= size
      requires size - Min(n1, size - pos) + n2 <= LENGTH_LIMIT
      modifies this, data
      ensures Valid() && Terminated() && Owned(old(data))
      ensures Contents() == Replaced(old(Contents()), pos, n1, n2, c)
      ensures n2 == 0 ==> data == old(data) && capacity == old(capacity)
    {
      var newSize := n2 + (size - Min(n1, size - pos));
      if newSize > capacity {
        ReplaceInNewBlock(pos, n1, n2, c);
      } else if data != null {
        ReplaceInPlace(pos, n1, n2, c);
      } else {
        IsReplaced([], [], pos, n1, n2, c);
      }
    }

    /** assign(*this, pos, n): the front is erased, then the rest cut off. */
    method AssignSelf(pos: nat, n: nat)
      requires Valid() && pos <= size
      modifies this, data
      ensures Valid() && Terminated() && Owned(old(data))
      ensures Contents() == Slice(old(Contents()), pos, n)
    {
      hide Replaced, Grows, Slice;
      ghost var before := Contents();
      var rlen := Min(n, size - pos);
      Replace(0, pos, 0, NUL);
      ErasedFront(before, pos);
      ghost var rest := Contents();
      ChangeSize(rlen, true);
      CutRest(Contents(), rest, before, pos, n);
    }

    method AssignOther(str: BasicString, pos: nat, n: nat)
      requires Valid() && str.Valid() && str != this && pos <= str.size && Fits(Min(n, str.size - pos))
      requires str.data != null ==> str.data != data
      modifies this, data
      ensures Valid() && Terminated() && Owned(old(data))
      ensures Contents() == Slice(old(str.Contents()), pos, n) && str.Contents() == old(str.Contents())
    {
      hide Slice;
      var rlen := Min(n, str.size - pos);
      ChangeSize(rlen, false);
      if data != null && str.data != null {
        CopyChars(data, 0, str.data, pos, rlen);
      }
      IsSlice(Contents(), str.Contents(), pos, n);
    }

    /** assign(str, pos, n), where str may be this very string. */
    method AssignFrom(str: BasicString, pos: nat, n: nat)
      requires Valid() && str.Valid() && pos <= str.size && Fits(Min(n, str.size - pos))
      requires str != this && str.data != null ==> str.data != data
      modifies this, data
      ensures Valid() && Terminated() && Owned(old(data))
      ensures Contents() == Slice(old(str.Contents()), pos, n)
    {
      hide Slice;
      if this == str {
        AssignSelf(pos, n);
      } else {
        AssignOther(str, pos, n);
      }
    }

    /** reserve: may also shrink the block to fit.  On a string without storage
        it writes no terminator, so there is one only if the fresh memory
        happens to hold it. */
    method Reserve(resArg0: nat, garbage: char)
      requires Valid() && resArg0 <= LENGTH_LIMIT
      modifies this, data
      ensures Valid() && Owned(old(data)) && data != null && Contents() == old(Contents())
      ensures old(data) != null ==> (Terminated() <==> old(Terminated()))
      ensures old(data) == null ==> (Terminated() <==> garbage == NUL)
      ensures capacity >= resArg0 && capacity % 4 == 3
    {
      var resArg := if resArg0 < size then size else resArg0;
      RoundIs(resArg);
      resArg := Round(resArg);
      if resArg != capacity {
        var p := new char[resArg + 1](_ => garbage);
        if data != null {
          CopyChars(p, 0, data, 0, size + 1);
        }
        data := p;
        capacity := resArg;
      }
    }
  }
}

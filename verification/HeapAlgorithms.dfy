// The binary-heap half of include/mslcpp/algorithm.h: push_heap, pop_heap,
// make_heap and the sift they share.  A range [first, last) is the prefix of
// length `len` of an array, as every caller passes begin().
module HeapAlgorithms {

  /** What the C++ library asks of a comparison function. */
  ghost predicate StrictWeakOrder<T(!new)>(comp: (T, T) -> bool) {
    && (forall x :: !comp(x, x))
    && (forall x, y, z :: comp(x, y) && comp(y, z) ==> comp(x, z))
    && (forall x, y, z :: Equivalent(comp, x, y) && Equivalent(comp, y, z) ==> Equivalent(comp, x, z))
  }

  ghost predicate Equivalent<T>(comp: (T, T) -> bool, x: T, y: T) {
    !comp(x, y) && !comp(y, x)
  }

  /** "Does not beat" is transitive: the fact every heap argument rests on. */
  lemma NotLessTransitive<T(!new)>(comp: (T, T) -> bool, x: T, y: T, z: T)
    requires StrictWeakOrder(comp)
    requires !comp(x, y) && !comp(y, z)
    ensures !comp(x, z)
  {
    if comp(x, z) && !comp(y, x) && !comp(z, y) {
      assert Equivalent(comp, x, y) && Equivalent(comp, y, z);
      assert false;
    }
  }

  function Parent(i: nat): nat
    requires i > 0
  {
    (i - 1) / 2
  }

  /** Slot i does not beat its parent. */
  ghost predicate EdgeOk<T>(s: seq<T>, i: nat, comp: (T, T) -> bool)
    requires 0 < i < |s|
  {
    !comp(s[Parent(i)], s[i])
  }

  /** Heap order for every edge whose upper end is at `from` or later. */
  ghost predicate HeapFrom<T>(s: seq<T>, from: nat, comp: (T, T) -> bool) {
    forall i :: 0 < i < |s| && from <= Parent(i) ==> EdgeOk(s, i, comp)
  }

  ghost predicate IsHeap<T>(s: seq<T>, comp: (T, T) -> bool) {
    HeapFrom(s, 0, comp)
  }

  /** Heap order from `from` on, except that the value at `hole` may be beaten
      by its children; those children are still no larger than hole's parent. */
  ghost predicate HeapExceptHole<T>(s: seq<T>, from: nat, hole: nat, comp: (T, T) -> bool)
    requires hole < |s|
  {
    && (forall i :: 0 < i < |s| && from <= Parent(i) && Parent(i) != hole ==> EdgeOk(s, i, comp))
    && (hole > 0 && from <= Parent(hole) ==>
          forall k :: 0 < k < |s| && Parent(k) == hole ==> !comp(s[Parent(hole)], s[k]))
  }

  ghost predicate Permutation<T>(s: seq<T>, t: seq<T>) {
    multiset(s) == multiset(t)
  }

  lemma PermutationReflexive<T>(s: seq<T>)
    ensures Permutation(s, s)
  {
  }

  lemma PermutationChain<T>(s: seq<T>, t: seq<T>, u: seq<T>)
    requires Permutation(s, t) && Permutation(t, u)
    ensures Permutation(s, u)
  {
  }

  ghost function Swapped<T>(s: seq<T>, i: nat, j: nat): (r: seq<T>)
    requires i < |s| && j < |s|
    ensures |r| == |s| && r[i] == s[j] && r[j] == s[i]
    ensures forall k :: 0 <= k < |s| && k != i && k != j ==> r[k] == s[k]
    ensures Permutation(r, s)
  {
    s[i := s[j]][j := s[i]]
  }

  /** Moving the preferred child c into the hole and the hole's value down to c. */
  lemma SiftStep<T(!new)>(s: seq<T>, from: nat, hole: nat, c: nat, comp: (T, T) -> bool)
    requires StrictWeakOrder(comp)
    requires 0 < c < |s| && Parent(c) == hole && from <= hole
    requires HeapExceptHole(s, from, hole, comp)
    requires forall k :: 0 < k < |s| && Parent(k) == hole ==> !comp(s[c], s[k])
    requires comp(s[hole], s[c])
    ensures var s' := Swapped(s, hole, c);
            HeapExceptHole(s', from, c, comp)
  {
    var s' := Swapped(s, hole, c);
    forall i | 0 < i < |s'| && from <= Parent(i) && Parent(i) != c
      ensures EdgeOk(s', i, comp)
    {
      if Parent(i) == hole {
        if i == c {
          assert !comp(s[c], s[hole]);
        }
      } else {
        assert EdgeOk(s, i, comp);
      }
    }
    forall k | 0 < k < |s'| && Parent(k) == c
      ensures !comp(s'[Parent(c)], s'[k])
    {
      assert EdgeOk(s, k, comp);
    }
  }

  /** A hole value that no child of the hole beats closes the heap. */
  lemma SiftDone<T(!new)>(s: seq<T>, from: nat, hole: nat, c: nat, comp: (T, T) -> bool)
    requires StrictWeakOrder(comp)
    requires hole < |s| && from <= hole && HeapExceptHole(s, from, hole, comp)
    requires 0 < c < |s| && Parent(c) == hole
    requires forall k :: 0 < k < |s| && Parent(k) == hole ==> !comp(s[c], s[k])
    requires !comp(s[hole], s[c])
    ensures HeapFrom(s, from, comp)
  {
    forall i | 0 < i < |s| && from <= Parent(i)
      ensures EdgeOk(s, i, comp)
    {
      if Parent(i) == hole {
        NotLessTransitive(comp, s[hole], s[c], s[i]);
      }
    }
  }

  /** The sift-down of the library: `value` is placed at or below `hole`. */
  method InsertHeapDown<T(!new)>(a: array<T>, len: nat, hole: nat, value: T, comp: (T, T) -> bool, ghost from: nat)
    requires StrictWeakOrder(comp)
    requires hole < len <= a.Length && from <= hole
    requires HeapExceptHole(a[..len][hole := value], from, hole, comp)
    modifies a
    ensures HeapFrom(a[..len], from, comp)
    ensures Permutation(a[..len], old(a[..len])[hole := value])
    ensures forall i :: len <= i < a.Length ==> a[i] == old(a[i])
  {
    hide HeapExceptHole, HeapFrom, StrictWeakOrder, Parent, Swapped, Permutation;
    ghost var s := a[..len][hole := value];
    PermutationReflexive(s);
    ghost var target := s;
    var holeP := hole;
    var child := 2 * (hole + 1);
    while child <= len
      invariant from <= holeP < len && child == 2 * (holeP + 1)
      invariant |s| == len && s[holeP] == value
      invariant forall i :: 0 <= i < len && i != holeP ==> s[i] == a[i]
      invariant HeapExceptHole(s, from, holeP, comp) && Permutation(s, target)
      invariant forall i :: len <= i < a.Length ==> a[i] == old(a[i])
      decreases len - holeP
    {
      if child == len || comp(a[child], a[child - 1]) {
        child := child - 1;
      }
      SiftRound(s, from, holeP, child, comp);
      if !comp(value, a[child]) {
        break;
      }
      PermutationChain(Swapped(s, holeP, child), s, target);
      s := Swapped(s, holeP, child);
      a[holeP] := a[child];
      holeP := child;
      child := child + 1;
      child := child * 2;
    }
    if child > len {
      NoChildDone(s, from, holeP, comp);
    }
    a[holeP] := value;
    assert a[..len] == s;
  }

  /** One round of the sift: either it is over, or it moves down to c. */
  lemma SiftRound<T(!new)>(s: seq<T>, from: nat, hole: nat, c: nat, comp: (T, T) -> bool)
    requires StrictWeakOrder(comp)
    requires from <= hole < |s| && HeapExceptHole(s, from, hole, comp)
    requires c == 2 * hole + 1 || c == 2 * hole + 2
    requires c < |s|
    requires c == 2 * hole + 1 && c + 1 < |s| ==> comp(s[c + 1], s[c])
    requires c == 2 * hole + 2 ==> !comp(s[c], s[c - 1])
    ensures !comp(s[hole], s[c]) ==> HeapFrom(s, from, comp)
    ensures comp(s[hole], s[c]) ==>
              var s' := Swapped(s, hole, c);
              HeapExceptHole(s', from, c, comp)
  {
    PreferredChild(s, hole, c, comp);
    if comp(s[hole], s[c]) {
      SiftStep(s, from, hole, c, comp);
    } else {
      SiftDone(s, from, hole, c, comp);
    }
  }

  /** A hole without children closes the heap. */
  lemma NoChildDone<T(!new)>(s: seq<T>, from: nat, hole: nat, comp: (T, T) -> bool)
    requires hole < |s| < 2 * (hole + 1)
    requires HeapExceptHole(s, from, hole, comp)
    ensures HeapFrom(s, from, comp)
  {
  }

  /** The index the sift chooses is a child no other child beats. */
  lemma PreferredChild<T(!new)>(s: seq<T>, hole: nat, c: nat, comp: (T, T) -> bool)
    requires StrictWeakOrder(comp)
    requires c == 2 * hole + 1 || c == 2 * hole + 2
    requires c < |s|
    requires c == 2 * hole + 1 && c + 1 < |s| ==> comp(s[c + 1], s[c])
    requires c == 2 * hole + 2 ==> !comp(s[c], s[c - 1])
    ensures 0 < c && Parent(c) == hole
    ensures forall k :: 0 < k < |s| && Parent(k) == hole ==> !comp(s[c], s[k])
  {
    forall k | 0 < k < |s| && Parent(k) == hole
      ensures !comp(s[c], s[k])
    {
      assert k == 2 * hole + 1 || k == 2 * hole + 2;
    }
  }

  /** Heap order on every edge but the one into `hole`, whose children are
      still no larger than hole's parent. */
  ghost predicate HeapExceptInto<T>(s: seq<T>, hole: nat, comp: (T, T) -> bool)
    requires hole < |s|
  {
    && (forall i :: 0 < i < |s| && i != hole ==> EdgeOk(s, i, comp))
    && (hole > 0 ==> forall k :: 0 < k < |s| && Parent(k) == hole ==> !comp(s[Parent(hole)], s[k]))
  }

  /** One round of the sift up: the value rises to a parent it beats. */
  lemma RiseStep<T(!new)>(s: seq<T>, s0: seq<T>, hole: nat, p: nat, comp: (T, T) -> bool)
    requires StrictWeakOrder(comp)
    requires 0 < hole < |s| && p == (hole - 1) / 2 && HeapExceptInto(s, hole, comp)
    requires comp(s[p], s[hole]) && Permutation(s, s0)
    ensures HeapExceptInto(Swapped(s, hole, p), p, comp) && Permutation(Swapped(s, hole, p), s0)
  {
    var s' := Swapped(s, hole, p);
    forall i | 0 < i < |s'| && i != p
      ensures EdgeOk(s', i, comp)
    {
      if Parent(i) == p && i != hole {
        assert EdgeOk(s, i, comp);
        NotLessTransitive(comp, s[hole], s[p], s[i]);
      } else if Parent(i) != p && Parent(i) != hole {
        assert EdgeOk(s, i, comp);
      }
    }
    if p > 0 {
      assert EdgeOk(s, p, comp);
      forall k | 0 < k < |s'| && Parent(k) == p
        ensures !comp(s'[Parent(p)], s'[k])
      {
        if k != hole {
          assert EdgeOk(s, k, comp);
          NotLessTransitive(comp, s[Parent(p)], s[p], s[k]);
        }
      }
    }
  }

  lemma RiseDone<T>(s: seq<T>, hole: nat, p: nat, comp: (T, T) -> bool)
    requires 0 < hole < |s| && p == (hole - 1) / 2 && HeapExceptInto(s, hole, comp)
    requires !comp(s[p], s[hole])
    ensures IsHeap(s, comp)
  {
  }

  /** Appending to a heap breaks at most the edge into the new slot. */
  lemma AppendedHeap<T>(s: seq<T>, init: seq<T>, comp: (T, T) -> bool)
    requires |s| > 0 && init == s[..|s| - 1] && IsHeap(init, comp)
    ensures HeapExceptInto(s, |s| - 1, comp)
  {
    forall i | 0 < i < |s| && i != |s| - 1
      ensures EdgeOk(s, i, comp)
    {
      assert EdgeOk(init, i, comp);
    }
  }

  method PushHeap<T(!new)>(a: array<T>, len: nat, comp: (T, T) -> bool)
    requires StrictWeakOrder(comp)
    requires len <= a.Length
    requires len > 0 ==> IsHeap(a[..len - 1], comp)
    modifies a
    ensures IsHeap(a[..len], comp)
    ensures Permutation(a[..len], old(a[..len]))
    ensures forall i :: len <= i < a.Length ==> a[i] == old(a[i])
  {
    hide HeapExceptInto, IsHeap, StrictWeakOrder, Swapped, Permutation, Parent;
    if len < 2 {
      SingletonHeap(a[..len], comp);
      PermutationReflexive(a[..len]);
      return;
    }
    AppendedHeap(a[..len], a[..len - 1], comp);
    PermutationReflexive(a[..len]);
    var parent := (len - 2) / 2;
    var holeP := len - 1;
    if comp(a[parent], a[holeP]) {
      SiftUp(a, len, parent, comp);
    } else {
      RiseDone(a[..len], holeP, parent, comp);
    }
  }

  /** The rising loop of push_heap, entered when the last slot beats its parent. */
  method SiftUp<T(!new)>(a: array<T>, len: nat, parent0: nat, comp: (T, T) -> bool)
    requires StrictWeakOrder(comp)
    requires 1 < len <= a.Length && parent0 == (len - 2) / 2
    requires comp(a[parent0], a[len - 1]) && HeapExceptInto(a[..len], len - 1, comp)
    modifies a
    ensures IsHeap(a[..len], comp)
    ensures Permutation(a[..len], old(a[..len]))
    ensures forall i :: len <= i < a.Length ==> a[i] == old(a[i])
  {
    hide HeapExceptInto, IsHeap, StrictWeakOrder, Swapped, Permutation, Parent;
    ghost var s0 := a[..len];
    ghost var s := s0;
    PermutationReflexive(s);
    var parent := parent0;
    var holeP := len - 1;
    var tmp := a[holeP];
    while true
      invariant 0 < holeP < len && parent == (holeP - 1) / 2
      invariant |s| == len && s[holeP] == tmp && comp(s[parent], tmp)
      invariant forall i :: 0 <= i < len && i != holeP ==> s[i] == a[i]
      invariant HeapExceptInto(s, holeP, comp) && Permutation(s, s0)
      invariant forall i :: len <= i < a.Length ==> a[i] == old(a[i])
      decreases holeP
    {
      RiseStep(s, s0, holeP, parent, comp);
      s := Swapped(s, holeP, parent);
      a[holeP] := a[parent];
      holeP := parent;
      if parent == 0 {
        RootReached(s, comp);
        break;
      }
      parent := (parent - 1) / 2;
      if !comp(a[parent], tmp) {
        RiseDone(s, holeP, parent, comp);
        break;
      }
    }
    a[holeP] := tmp;
    assert a[..len] == s;
  }

  lemma RootReached<T>(s: seq<T>, comp: (T, T) -> bool)
    requires |s| > 0 && HeapExceptInto(s, 0, comp)
    ensures IsHeap(s, comp)
  {
  }

  /** Dropping the last slot of a heap and replacing the root leaves a hole at the root. */
  lemma RootHole<T>(s: seq<T>, comp: (T, T) -> bool)
    requires |s| > 1 && IsHeap(s, comp)
    ensures HeapExceptHole(s[..|s| - 1][0 := s[|s| - 1]], 0, 0, comp)
  {
    var s' := s[..|s| - 1][0 := s[|s| - 1]];
    forall i | 0 < i < |s'| && Parent(i) != 0
      ensures EdgeOk(s', i, comp)
    {
      assert EdgeOk(s, i, comp);
    }
  }

  lemma RootSwapElements<T>(s: seq<T>, t: seq<T>)
    requires |s| > 1 && |t| == |s| && t[|s| - 1] == s[0]
    requires Permutation(t[..|s| - 1], s[..|s| - 1][0 := s[|s| - 1]])
    ensures Permutation(t, s)
  {
    var n := |s| - 1;
    var u := Swapped(s, 0, n);
    assert s[..n][0 := s[n]] == u[..n];
    assert u == u[..n] + [s[0]] && t == t[..n] + [s[0]];
  }

  lemma PairSwapped<T>(s: seq<T>, t: seq<T>)
    requires |s| == |t| == 2 && t[0] == s[1] && t[1] == s[0]
    ensures Permutation(t, s)
  {
    assert t == Swapped(s, 0, 1);
  }

  method PopHeap<T(!new)>(a: array<T>, len: nat, comp: (T, T) -> bool)
    requires StrictWeakOrder(comp)
    requires len <= a.Length && IsHeap(a[..len], comp)
    modifies a
    ensures len > 0 ==> IsHeap(a[..len - 1], comp) && a[len - 1] == old(a[0])
    ensures Permutation(a[..len], old(a[..len]))
    ensures forall i :: len <= i < a.Length ==> a[i] == old(a[i])
  {
    hide IsHeap, HeapExceptHole, HeapFrom, StrictWeakOrder, Permutation, Swapped, Parent;
    ghost var s := a[..len];
    PermutationReflexive(s);
    if len == 1 {
      SingletonHeap(a[..0], comp);
    } else if len == 2 {
      a[0], a[1] := a[1], a[0];
      SingletonHeap(a[..1], comp);
      PairSwapped(s, a[..2]);
    } else if len > 2 {
      RootToEnd(a, len, comp);
    }
  }

  /** The root goes to the last slot, whose value is sifted in from the top. */
  method RootToEnd<T(!new)>(a: array<T>, len: nat, comp: (T, T) -> bool)
    requires StrictWeakOrder(comp)
    requires 2 < len <= a.Length && IsHeap(a[..len], comp)
    modifies a
    ensures IsHeap(a[..len - 1], comp) && a[len - 1] == old(a[0])
    ensures Permutation(a[..len], old(a[..len]))
    ensures forall i :: len <= i < a.Length ==> a[i] == old(a[i])
  {
    hide IsHeap, HeapExceptHole, HeapFrom, StrictWeakOrder, Permutation, Swapped, Parent;
    ghost var s := a[..len];
    RootHole(s, comp);
    var last := len - 1;
    var tmp := a[last];
    a[last] := a[0];
    assert a[..last][0 := tmp] == s[..last][0 := tmp];
    InsertHeapDown(a, last, 0, tmp, comp, 0);
    HeapFromZero(a[..last], comp);
    assert a[..len][..last] == a[..last];
    RootSwapElements(s, a[..len]);
  }

  lemma SingletonHeap<T>(s: seq<T>, comp: (T, T) -> bool)
    requires |s| <= 1
    ensures IsHeap(s, comp)
  {
  }

  lemma HeapFromZero<T>(s: seq<T>, comp: (T, T) -> bool)
    ensures HeapFrom(s, 0, comp) <==> IsHeap(s, comp)
  {
  }

  /** Sifts one parent, of which c is the preferred child, into the heap below it. */
  method SiftParent<T(!new)>(a: array<T>, len: nat, parent: nat, c: nat, comp: (T, T) -> bool)
    requires StrictWeakOrder(comp)
    requires len <= a.Length && c < len && (c == 2 * parent + 1 || c == 2 * parent + 2)
    requires c == 2 * parent + 1 && c + 1 < len ==> comp(a[c + 1], a[c])
    requires c == 2 * parent + 2 ==> !comp(a[c], a[c - 1])
    requires HeapFrom(a[..len], parent + 1, comp)
    modifies a
    ensures HeapFrom(a[..len], parent, comp)
    ensures Permutation(a[..len], old(a[..len]))
    ensures forall i :: len <= i < a.Length ==> a[i] == old(a[i])
  {
    hide HeapFrom, HeapExceptHole, StrictWeakOrder, Swapped, Permutation, Parent;
    ghost var s := a[..len];
    PermutationReflexive(s);
    OpenParent(s, parent, comp);
    SiftRound(s, parent, parent, c, comp);
    if comp(a[parent], a[c]) {
      var tmp := a[parent];
      a[parent] := a[c];
      assert a[..len][c := tmp] == Swapped(s, parent, c);
      InsertHeapDown(a, len, c, tmp, comp, parent);
      PermutationChain(a[..len], Swapped(s, parent, c), s);
    }
  }

  /** make_heap: every parent, last first, is sifted into the heap below it. */
  method MakeHeap<T(!new)>(a: array<T>, len: nat, comp: (T, T) -> bool)
    requires StrictWeakOrder(comp)
    requires len <= a.Length
    modifies a
    ensures IsHeap(a[..len], comp)
    ensures Permutation(a[..len], old(a[..len]))
    ensures forall i :: len <= i < a.Length ==> a[i] == old(a[i])
  {
    hide HeapFrom, HeapExceptHole, StrictWeakOrder, Swapped, Permutation, IsHeap, Parent;
    PermutationReflexive(a[..len]);
    if len < 2 {
      SingletonHeap(a[..len], comp);
      return;
    }
    var parent: nat := (len - 2) / 2;
    var child: nat := 2 * (parent + 1);
    var c := child;
    if child == len || comp(a[child], a[child - 1]) {
      c := c - 1;
    }
    LeavesAreHeap(a[..len], parent, comp);
    while true
      invariant 0 <= parent && child == 2 * (parent + 1) <= len
      invariant (c == child || c == child - 1) && 0 <= c < len
      invariant c == child - 1 && child < len ==> comp(a[child], a[c])
      invariant c == child ==> !comp(a[c], a[c - 1])
      invariant HeapFrom(a[..len], parent + 1, comp)
      invariant Permutation(a[..len], old(a[..len]))
      invariant forall i :: len <= i < a.Length ==> a[i] == old(a[i])
      decreases parent
    {
      ghost var s := a[..len];
      SiftParent(a, len, parent, c, comp);
      PermutationChain(a[..len], s, old(a[..len]));
      if parent == 0 {
        break;
      }
      parent := parent - 1;
      child := child - 2;
      c := child;
      if comp(a[child], a[child - 1]) {
        c := child - 1;
      }
    }
    HeapFromZero(a[..len], comp);
  }

  /** No edge starts below the last parent. */
  lemma LeavesAreHeap<T>(s: seq<T>, parent: nat, comp: (T, T) -> bool)
    requires |s| >= 2 && parent == (|s| - 2) / 2
    ensures HeapFrom(s, parent + 1, comp)
  {
  }

  lemma OpenParent<T>(s: seq<T>, parent: nat, comp: (T, T) -> bool)
    requires parent < |s| && HeapFrom(s, parent + 1, comp)
    ensures HeapExceptHole(s, parent, parent, comp)
  {
  }
}

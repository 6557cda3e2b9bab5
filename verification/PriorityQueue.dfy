// std::priority_queue of include/mslcpp/queue.h over the vector and the heap
// algorithms, and what its pushes and pops add up to over a whole run.
module PriorityQueue {
  import opened RawStorage
  import opened NonPodVector
  import opened HeapAlgorithms

  datatype Op<T> = Push(value: T) | Pop

  /** One operation on the underlying heap. */
  ghost predicate Step<T>(before: seq<T>, op: Op<T>, after: seq<T>, comp: (T, T) -> bool) {
    && IsHeap(before, comp) && IsHeap(after, comp)
    && match op
       case Push(x) => multiset(after) == multiset(before) + multiset{x}
       case Pop => |before| > 0 && multiset(before) == multiset(after) + multiset{before[0]}
  }

  ghost predicate Run<T>(states: seq<seq<T>>, ops: seq<Op<T>>, comp: (T, T) -> bool) {
    && |states| == |ops| + 1
    && forall i :: 0 <= i < |ops| ==> Step(states[i], ops[i], states[i + 1], comp)
  }

  ghost function Pushed<T>(ops: seq<Op<T>>): multiset<T> {
    if ops == [] then multiset{}
    else Pushed(ops[..|ops| - 1]) + if ops[|ops| - 1].Push? then multiset{ops[|ops| - 1].value} else multiset{}
  }

  /** The value top() had at every pop. */
  ghost function Popped<T>(states: seq<seq<T>>, ops: seq<Op<T>>): seq<T>
    requires |states| == |ops| + 1
  {
    if ops == [] then []
    else
      var n := |ops| - 1;
      Popped(states[..|ops|], ops[..n]) + if ops[n].Pop? && states[n] != [] then [states[n][0]] else []
  }

  lemma RunPrefix<T>(states: seq<seq<T>>, ops: seq<Op<T>>, comp: (T, T) -> bool)
    requires Run(states, ops, comp) && ops != []
    ensures Run(states[..|ops|], ops[..|ops| - 1], comp)
    ensures Step(states[|ops| - 1], ops[|ops| - 1], states[|ops|], comp)
  {
    var n := |ops| - 1;
    forall i | 0 <= i < n
      ensures Step(states[..n + 1][i], ops[..n][i], states[..n + 1][i + 1], comp)
    {
      assert Step(states[i], ops[i], states[i + 1], comp);
    }
  }

  /** Nothing is lost or made up: what is in the queue and what was taken out
      are together what was there at first and what was put in. */
  lemma {:induction false} RunConserves<T(!new)>(states: seq<seq<T>>, ops: seq<Op<T>>, comp: (T, T) -> bool)
    requires Run(states, ops, comp)
    ensures multiset(states[|ops|]) + multiset(Popped(states, ops)) == multiset(states[0]) + Pushed(ops)
  {
    if ops != [] {
      var n := |ops| - 1;
      RunPrefix(states, ops, comp);
      RunConserves(states[..n + 1], ops[..n], comp);
      hide IsHeap, Run, Popped, Pushed, Step;
      PoppedStep(states, ops);
      StepElements(states[n], ops[n], states[n + 1], comp);
      var added := if ops[n].Push? then multiset{ops[n].value} else multiset{};
      var taken := if ops[n].Pop? then multiset{states[n][0]} else multiset{};
      Balance(multiset(states[n + 1]), multiset(states[n]), multiset(Popped(states[..n + 1], ops[..n])),
              multiset(states[0]), Pushed(ops[..n]), added, taken);
    }
  }

  lemma Balance<T(!new)>(after: multiset<T>, before: multiset<T>, popped: multiset<T>, initial: multiset<T>,
                   pushed: multiset<T>, added: multiset<T>, taken: multiset<T>)
    requires before + popped == initial + pushed && before + added == after + taken
    ensures after + (popped + taken) == initial + (pushed + added)
  {
    forall x: T
      ensures (after + (popped + taken))[x] == (initial + (pushed + added))[x]
    {
      assert (before + popped)[x] == (initial + pushed)[x] && (before + added)[x] == (after + taken)[x];
    }
  }

  lemma StepElements<T>(before: seq<T>, op: Op<T>, after: seq<T>, comp: (T, T) -> bool)
    requires Step(before, op, after, comp)
    ensures op.Pop? ==> before != []
    ensures multiset(before) + (if op.Push? then multiset{op.value} else multiset{})
         == multiset(after) + (if op.Pop? then multiset{before[0]} else multiset{})
  {
    hide IsHeap;
  }

  lemma PoppedStep<T>(states: seq<seq<T>>, ops: seq<Op<T>>)
    requires |states| == |ops| + 1 && ops != []
    ensures var n := |ops| - 1;
            var op := ops[n];
            && multiset(Popped(states, ops))
               == multiset(Popped(states[..n + 1], ops[..n]))
                  + (if op.Pop? && states[n] != [] then multiset{states[n][0]} else multiset{})
            && Pushed(ops) == Pushed(ops[..n]) + (if op.Push? then multiset{op.value} else multiset{})
  {
  }

  /** top() is beaten by nothing in the queue. */
  lemma {:induction false} TopIsMaximal<T(!new)>(s: seq<T>, i: nat, comp: (T, T) -> bool)
    requires StrictWeakOrder(comp) && IsHeap(s, comp) && i < |s|
    ensures !comp(s[0], s[i])
  {
    if i > 0 {
      TopIsMaximal(s, Parent(i), comp);
      assert EdgeOk(s, i, comp);
      NotLessTransitive(comp, s[0], s[Parent(i)], s[i]);
    }
  }

  /** In a run of pops, what is popped is beaten neither by what is still inside
      nor by what is popped later. */
  ghost predicate Descending<T>(s: seq<T>, comp: (T, T) -> bool) {
    forall i, j :: 0 <= i < j < |s| ==> !comp(s[i], s[j])
  }

  lemma {:induction false} PoppedAboveRest<T(!new)>(states: seq<seq<T>>, ops: seq<Op<T>>, comp: (T, T) -> bool)
    requires StrictWeakOrder(comp) && Run(states, ops, comp)
    requires forall i :: 0 <= i < |ops| ==> ops[i].Pop?
    ensures Descending(Popped(states, ops), comp)
    ensures forall x, y :: x in Popped(states, ops) && y in states[|ops|] ==> !comp(x, y)
  {
    if ops != [] {
      var n := |ops| - 1;
      var s := states[n];
      assert Step(s, ops[n], states[n + 1], comp);
      var top := s[0];
      RunPrefix(states, ops, comp);
      PoppedAboveRest(states[..n + 1], ops[..n], comp);
      var p := Popped(states[..n + 1], ops[..n]);
      assert Popped(states, ops) == p + [top];
      assert top in s;
      forall y | y in states[n + 1]
        ensures y in s && !comp(top, y)
      {
        assert y in multiset(s);
        var i :| 0 <= i < |s| && s[i] == y;
        TopIsMaximal(s, i, comp);
      }
    }
  }

  /** Popping a queue until it is empty sorts it. */
  lemma DrainSorts<T(!new)>(states: seq<seq<T>>, ops: seq<Op<T>>, comp: (T, T) -> bool)
    requires StrictWeakOrder(comp) && Run(states, ops, comp)
    requires forall i :: 0 <= i < |ops| ==> ops[i].Pop?
    requires states[|ops|] == []
    ensures Descending(Popped(states, ops), comp)
    ensures multiset(Popped(states, ops)) == multiset(states[0])
  {
    PoppedAboveRest(states, ops, comp);
    RunConserves(states, ops, comp);
    NothingPushed(ops);
    assert multiset(states[|ops|]) == multiset{};
    assert multiset(Popped(states, ops)) == multiset{} + multiset(Popped(states, ops));
  }

  lemma {:induction false} NothingPushed<T>(ops: seq<Op<T>>)
    requires forall i :: 0 <= i < |ops| ==> ops[i].Pop?
    ensures Pushed(ops) == multiset{}
  {
    if ops != [] {
      NothingPushed(ops[..|ops| - 1]);
    }
  }

  lemma PushIsStep<T>(before: seq<T>, x: T, appended: seq<T>, after: seq<T>, comp: (T, T) -> bool)
    requires IsHeap(before, comp) && IsHeap(after, comp)
    requires appended == before + [x] && Permutation(after, appended)
    ensures Step(before, Op.Push(x), after, comp)
  {
    hide IsHeap;
  }

  class PriorityQueue<T(0, !new)> {
    var c: Vector<T>
    const comp: (T, T) -> bool

    ghost predicate Valid()
      reads this, c, c.buf, c.buf.cells
    {
      c.Valid() && StrictWeakOrder(comp) && IsHeap(c.Contents(), comp)
    }

    ghost function Contents(): seq<T>
      requires Valid()
      reads this, c, c.buf, c.buf.cells
    {
      c.Contents()
    }

    constructor (comp: (T, T) -> bool, y: Vector<T>)
      requires StrictWeakOrder(comp) && y.Valid()
      ensures Valid() && fresh(c) && fresh(c.buf) && fresh(c.buf.cells) && this.comp == comp
      ensures multiset(Contents()) == multiset(y.Contents())
    {
      this.comp := comp;
      c := new Vector.CopyOf(y);
      new;
      MakeHeap(c.buf.cells, c.size, comp);
    }

    method Empty() returns (r: bool)
      requires Valid()
      ensures r <==> Contents() == []
    {
      r := c.size == 0;
    }

    method Top() returns (x: T)
      requires Valid() && Contents() != []
      ensures x in Contents() && forall y :: y in Contents() ==> !comp(x, y)
      ensures x == Contents()[0]
    {
      x := c.buf.cells[0];
      forall i | 0 <= i < |Contents()|
        ensures !comp(Contents()[0], Contents()[i])
      {
        TopIsMaximal(Contents(), i, comp);
      }
    }

    method Push(x: Ref<T>)
      requires Valid() && c.ValidRef(x) && c.size < c.maxSize
      modifies c, c.buf, c.buf.cells
      ensures Valid() && c.Released(old(c.buf))
      ensures Step(old(Contents()), Op.Push(old(c.Referent(x))), Contents(), comp)
    {
      hide IsHeap, StrictWeakOrder, Step, Permutation;
      ghost var before := Contents();
      c.PushBack(x);
      assert c.buf.cells[..c.size - 1] == c.Contents()[..c.size - 1] == before;
      ghost var appended := c.Contents();
      PushHeap(c.buf.cells, c.size, comp);
      PushIsStep(before, old(c.Referent(x)), appended, c.Contents(), comp);
    }

    method Pop()
      requires Valid() && Contents() != []
      modifies c, c.buf, c.buf.cells
      ensures Valid() && c.buf == old(c.buf)
      ensures Step(old(Contents()), Op.Pop, Contents(), comp)
    {
      ghost var before := Contents();
      PopHeap(c.buf.cells, c.size, comp);
      assert c.Contents() == c.Contents()[..c.size - 1] + [before[0]];
      c.PopBack();
    }
  }
}

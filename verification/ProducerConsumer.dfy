// mwProducerConsumerQueue of include/mw/mwFileQueue.h as a state machine: any
// number of threads, one step per statement of produce and consumeNonBlocking,
// one mutex and one condition that serves producers only.
module ProducerConsumer {
  import opened Basics
  import opened CircularBuffer

  /** Where a thread is: the next statement it will run. */
  datatype Pc<T> =
    | Idle
    | ProduceLock(value: T)
    | ProduceTest(value: T)
    | Waiting(value: T)
    | Woken(value: T)
    | ProducePush(value: T)
    | ProduceSignal
    | ProduceUnlock
    | ConsumeLock
    | ConsumeTest
    | ConsumeFront
    | ConsumePop(front: T)
    | ConsumeSignal(front: T)
    | ConsumeUnlock(result: Option<T>)
  {
    /** Between acquiring the mutex and giving it up. */
    predicate Critical() {
      || ProduceTest? || ProducePush? || ProduceSignal? || ProduceUnlock?
      || ConsumeTest? || ConsumeFront? || ConsumePop? || ConsumeSignal? || ConsumeUnlock?
    }

    /** On its way to a signal, or to finding the ring full. */
    predicate Helper() {
      Woken? || ProduceTest? || ProducePush? || ProduceSignal? || ConsumeSignal?
    }
  }

  /** The logs list the values in the order of the push and pop statements. */
  datatype State<T> = State(
    ring: Ring<T>, owner: Option<nat>, threads: seq<Pc<T>>, produced: seq<T>, consumed: seq<T>)
  {
    function At(t: nat, pc: Pc<T>): State<T>
      requires t < |threads|
    {
      this.(threads := threads[t := pc])
    }
  }

  /** What condition.signal may do to the waiters: wake some, and at least one
      if there is one. */
  ghost predicate Signalled<T>(before: seq<Pc<T>>, after: seq<Pc<T>>) {
    && |after| == |before|
    && (forall u :: 0 <= u < |before| ==>
          after[u] == before[u] || (before[u].Waiting? && after[u] == Woken(before[u].value)))
    && ((exists u :: 0 <= u < |before| && before[u].Waiting?) ==>
          exists u :: 0 <= u < |before| && before[u].Waiting? && after[u].Woken?)
  }

  /** Thread t runs its next statement. */
  ghost predicate ThreadStep<T>(s: State<T>, t: nat, s': State<T>)
    requires t < |s.threads|
  {
    match s.threads[t]
    case Idle => false
    case ProduceLock(v) => s.owner.None? && s' == s.At(t, ProduceTest(v)).(owner := Some(t))
    case ProduceTest(v) =>
      if s.ring.Full() then s' == s.At(t, Waiting(v)).(owner := None) else s' == s.At(t, ProducePush(v))
    case Waiting(v) => false
    case Woken(v) => s.owner.None? && s' == s.At(t, ProduceTest(v)).(owner := Some(t))
    case ProducePush(v) =>
      && (s.ring.Full() || s.ring.tail < |s.ring.buffer|)
      && s' == s.At(t, ProduceSignal).(ring := s.ring.Push(v), produced := s.produced + [v])
    case ProduceSignal =>
      && Signalled(s.At(t, ProduceUnlock).threads, s'.threads) && s' == s.(threads := s'.threads)
    case ProduceUnlock => s' == s.At(t, Idle).(owner := None)
    case ConsumeLock => s.owner.None? && s' == s.At(t, ConsumeTest).(owner := Some(t))
    case ConsumeTest =>
      if s.ring.Empty() then s' == s.At(t, ConsumeUnlock(None)) else s' == s.At(t, ConsumeFront)
    case ConsumeFront => s.ring.head < |s.ring.buffer| && s' == s.At(t, ConsumePop(s.ring.Front()))
    case ConsumePop(x) =>
      && 0 < s.ring.count && |s.ring.buffer| > 0
      && s' == s.At(t, ConsumeSignal(x)).(ring := s.ring.Pop(), consumed := s.consumed + [x])
    case ConsumeSignal(x) =>
      && Signalled(s.At(t, ConsumeUnlock(Some(x))).threads, s'.threads) && s' == s.(threads := s'.threads)
    case ConsumeUnlock(r) => s' == s.At(t, Idle).(owner := None)
  }

  /** Thread t starts a call, or is woken without a signal. */
  ghost predicate EnvironmentStep<T>(s: State<T>, t: nat, s': State<T>)
    requires t < |s.threads|
  {
    || (s.threads[t].Idle? && t < |s'.threads| && s' == s.At(t, s'.threads[t])
        && (s'.threads[t].ConsumeLock? || s'.threads[t].ProduceLock?))
    || (s.threads[t].Waiting? && s' == s.At(t, Woken(s.threads[t].value)))
  }

  ghost predicate Init<T>(s: State<T>) {
    && s.ring.Valid() && s.ring.Empty() && s.owner.None? && s.produced == s.consumed == []
    && forall t :: 0 <= t < |s.threads| ==> s.threads[t].Idle?
  }

  ghost predicate Next<T>(s: State<T>, s': State<T>) {
    exists t: nat :: t < |s.threads| && (ThreadStep(s, t, s') || EnvironmentStep(s, t, s'))
  }

  ghost predicate Execution<T>(run: seq<State<T>>) {
    |run| > 0 && Init(run[0]) && forall i :: 0 <= i < |run| - 1 ==> Next(run[i], run[i + 1])
  }

  // ---- the invariant ----

  ghost predicate MutualExclusion<T>(s: State<T>) {
    && (s.owner.Some? ==> s.owner.value < |s.threads|)
    && forall t :: 0 <= t < |s.threads| ==> (s.threads[t].Critical() <==> s.owner == Some(t))
  }

  ghost predicate Locals<T>(s: State<T>)
    requires s.ring.Valid()
  {
    forall t :: 0 <= t < |s.threads| ==>
      && (s.threads[t].ProducePush? ==> !s.ring.Full())
      && (s.threads[t].ConsumeFront? ==> !s.ring.Empty())
      && (s.threads[t].ConsumePop? ==> !s.ring.Empty() && s.threads[t].front == s.ring.Contents()[0])
  }

  ghost predicate Fifo<T>(s: State<T>)
    requires s.ring.Valid()
  {
    s.produced == s.consumed + s.ring.Contents()
  }

  ghost predicate SomeoneWaits<T>(s: State<T>) {
    exists t :: 0 <= t < |s.threads| && s.threads[t].Waiting?
  }

  ghost predicate SomeoneHelps<T>(s: State<T>) {
    exists t :: 0 <= t < |s.threads| && s.threads[t].Helper()
  }

  ghost predicate NoLostWakeup<T>(s: State<T>) {
    SomeoneWaits(s) ==> s.ring.count == |s.ring.buffer| || SomeoneHelps(s)
  }

  ghost predicate Inv<T>(s: State<T>) {
    s.ring.Valid() && MutualExclusion(s) && Locals(s) && Fifo(s) && NoLostWakeup(s)
  }

  lemma StepKeepsExclusion<T>(s: State<T>, t: nat, s': State<T>)
    requires t < |s.threads| && MutualExclusion(s)
    requires ThreadStep(s, t, s') || EnvironmentStep(s, t, s')
    ensures |s'.threads| == |s.threads| && MutualExclusion(s')
  {
  }

  lemma OthersOutside<T>(s: State<T>, t: nat)
    requires MutualExclusion(s) && t < |s.threads| && s.threads[t].Critical()
    ensures forall u :: 0 <= u < |s.threads| && u != t ==> !s.threads[u].Critical()
  {
  }

  lemma PushKeepsFifo<T>(s: State<T>, t: nat, s': State<T>)
    requires t < |s.threads| && Inv(s) && s.threads[t].ProducePush? && ThreadStep(s, t, s')
    ensures s'.ring.Valid() && |s'.ring.buffer| == |s.ring.buffer| && Locals(s') && Fifo(s')
  {
    OthersOutside(s, t);
    hide NoLostWakeup, MutualExclusion;
    PushAppends(s.ring, s.threads[t].value);
  }

  lemma PopKeepsFifo<T>(s: State<T>, t: nat, s': State<T>)
    requires t < |s.threads| && Inv(s) && s.threads[t].ConsumePop? && ThreadStep(s, t, s')
    ensures s'.ring.Valid() && |s'.ring.buffer| == |s.ring.buffer| && Locals(s') && Fifo(s')
  {
    OthersOutside(s, t);
    hide NoLostWakeup, MutualExclusion;
    PopRemovesFront(s.ring);
    var x := s.threads[t].front;
    assert s.consumed + s.ring.Contents() == (s.consumed + [x]) + s.ring.Contents()[1..];
  }

  /** Only the statements inside the mutex touch the ring and the logs. */
  lemma StepKeepsFifo<T>(s: State<T>, t: nat, s': State<T>)
    requires t < |s.threads| && Inv(s)
    requires ThreadStep(s, t, s') || EnvironmentStep(s, t, s')
    ensures s'.ring.Valid() && |s'.ring.buffer| == |s.ring.buffer| && Locals(s') && Fifo(s')
  {
    hide NoLostWakeup, MutualExclusion;
    if s.threads[t].ProducePush? {
      PushKeepsFifo(s, t, s');
    } else if s.threads[t].ConsumePop? {
      PopKeepsFifo(s, t, s');
    } else {
      if s.threads[t].ConsumeFront? {
        PopRemovesFront(s.ring);
      }
      assert s'.ring == s.ring && s'.produced == s.produced && s'.consumed == s.consumed;
    }
  }

  lemma StepKeepsWakeups<T>(s: State<T>, t: nat, s': State<T>)
    requires t < |s.threads| && Inv(s)
    requires ThreadStep(s, t, s') || EnvironmentStep(s, t, s')
    ensures NoLostWakeup(s')
  {
    if SomeoneWaits(s') {
      var w :| 0 <= w < |s'.threads| && s'.threads[w].Waiting?;
      if s'.threads[t].Helper() {
      } else if s.threads[t].ProduceSignal? || s.threads[t].ConsumeSignal? {
        assert exists u :: 0 <= u < |s'.threads| && s'.threads[u].Woken?;
      } else if !s'.ring.Full() {
        assert s.threads[w].Waiting? && SomeoneWaits(s);
        var h :| 0 <= h < |s.threads| && s.threads[h].Helper();
        assert s'.threads[h].Helper();
      }
    }
  }

  lemma NextKeepsInv<T>(s: State<T>, s': State<T>)
    requires Inv(s) && Next(s, s')
    ensures Inv(s') && |s'.ring.buffer| == |s.ring.buffer| && |s'.threads| == |s.threads|
  {
    var t: nat :| t < |s.threads| && (ThreadStep(s, t, s') || EnvironmentStep(s, t, s'));
    StepKeepsExclusion(s, t, s');
    StepKeepsFifo(s, t, s');
    StepKeepsWakeups(s, t, s');
  }

  /** In every state of every interleaving: what was consumed, followed by what
      is in the ring, is what was produced, in order; no push was refused, at
      most one thread is inside, and no wake-up is lost. */
  lemma {:induction false} QueueIsSafe<T>(run: seq<State<T>>, i: nat)
    requires Execution(run) && i < |run|
    ensures Inv(run[i])
    ensures |run[i].ring.buffer| == |run[0].ring.buffer|
    ensures |run[i].produced| == |run[i].consumed| + run[i].ring.count
  {
    if i == 0 {
      assert run[0].ring.Contents() == [];
    } else {
      QueueIsSafe(run, i - 1);
      NextKeepsInv(run[i - 1], run[i]);
    }
  }

  /** Whenever the mutex is free and a producer sleeps, the ring is full or a
      producer that was woken is about to run. */
  lemma SleeperWithFreeMutex<T>(run: seq<State<T>>, i: nat)
    requires Execution(run) && i < |run| && run[i].owner.None? && SomeoneWaits(run[i])
    ensures || run[i].ring.count == |run[i].ring.buffer|
            || exists u :: 0 <= u < |run[i].threads| && run[i].threads[u].Woken?
  {
    QueueIsSafe(run, i);
    if !run[i].ring.Full() {
      var h :| 0 <= h < |run[i].threads| && run[i].threads[h].Helper();
      assert !run[i].threads[h].Critical();
      assert run[i].threads[h].Woken?;
    }
  }

  // ---- what the calls get and give ----

  /** Thread t returns from consumeNonBlocking with a value. */
  ghost predicate Returns<T>(s: State<T>, t: nat, s': State<T>) {
    && t < |s.threads| == |s'.threads| && s.threads[t].ConsumeUnlock? && s.threads[t].result.Some?
    && s'.threads[t].Idle?
  }

  /** What callers receive in a step. */
  ghost function Received<T>(s: State<T>, s': State<T>): seq<T> {
    if t: nat :| Returns(s, t, s') then [s.threads[t].result.value] else []
  }

  /** What callers have received up to state i, in order. */
  ghost function Delivered<T>(run: seq<State<T>>, i: nat): seq<T>
    requires i < |run|
  {
    if i == 0 then [] else Delivered(run, i - 1) + Received(run[i - 1], run[i])
  }

  /** What was popped and is still on its way to the caller. */
  function Held<T>(s: State<T>): seq<T> {
    if s.owner.None? || s.owner.value >= |s.threads| then []
    else
      match s.threads[s.owner.value]
      case ConsumeSignal(x) => [x]
      case ConsumeUnlock(Some(x)) => [x]
      case _ => []
  }

  /** The empty answer is given on an empty ring only. */
  ghost predicate EmptyAnswers<T>(s: State<T>)
    requires s.ring.Valid()
  {
    forall t :: 0 <= t < |s.threads| && s.threads[t] == ConsumeUnlock(None) ==> s.ring.Contents() == []
  }

  /** Only the owner of the mutex can return, and then the value it holds. */
  lemma ReceivedIsHeld<T>(s: State<T>, s': State<T>)
    requires MutualExclusion(s) && Received(s, s') != []
    ensures Received(s, s') == Held(s)
  {
    var t: nat :| Returns(s, t, s');
    assert s.threads[t].Critical();
  }

  lemma NothingReceived<T>(s: State<T>, t: nat, s': State<T>)
    requires t < |s.threads| && MutualExclusion(s) && (ThreadStep(s, t, s') || EnvironmentStep(s, t, s'))
    requires !s.threads[t].ConsumeUnlock? || s.threads[t].result.None?
    ensures Received(s, s') == []
  {
    forall u: nat
      ensures !Returns(s, u, s')
    {
      if u < |s.threads| && s.threads[u].ConsumeUnlock? && u != t {
        assert s.threads[u].Critical();
      }
    }
  }

  /** A popped value is held until the caller has it. */
  lemma StepDelivers<T>(s: State<T>, t: nat, s': State<T>)
    requires t < |s.threads| && Inv(s) && (ThreadStep(s, t, s') || EnvironmentStep(s, t, s'))
    ensures || (s'.consumed == s.consumed && Held(s) == Received(s, s') + Held(s'))
            || (s'.consumed == s.consumed + Held(s') && Held(s) == Received(s, s') == [])
  {
    StepKeepsExclusion(s, t, s');
    if s.threads[t].ConsumeUnlock? && s.threads[t].result.Some? && !EnvironmentStep(s, t, s') {
      assert Returns(s, t, s');
      ReceivedIsHeld(s, s');
    } else {
      NothingReceived(s, t, s');
      if s.threads[t].ConsumePop? {
        PopRemovesFront(s.ring);
      }
    }
  }

  lemma StepAnswers<T>(s: State<T>, t: nat, s': State<T>)
    requires t < |s.threads| && Inv(s) && EmptyAnswers(s)
    requires ThreadStep(s, t, s') || EnvironmentStep(s, t, s')
    ensures s'.ring.Valid() && EmptyAnswers(s')
  {
    StepKeepsFifo(s, t, s');
    if s.threads[t].Critical() {
      OthersOutside(s, t);
    }
    hide NoLostWakeup, Fifo, Locals, MutualExclusion;
  }

  /** In every interleaving the values that were popped are, in order, those that
      callers have received and then the one the owner of the mutex still holds;
      and a call answers that there is nothing only when there is nothing. */
  lemma {:induction false} CallsDeliver<T>(run: seq<State<T>>, i: nat)
    requires Execution(run) && i < |run|
    ensures run[i].ring.Valid() && EmptyAnswers(run[i])
    ensures run[i].consumed == Delivered(run, i) + Held(run[i])
  {
    hide Held, Received, EmptyAnswers, Next;
    if i > 0 {
      CallsDeliver(run, i - 1);
      QueueIsSafe(run, i - 1);
      assert Next(run[i - 1], run[i - 1 + 1]);
      DeliversOneMore(Delivered(run, i - 1), run[i - 1], run[i]);
    } else {
      NothingHeld(run[0]);
    }
  }

  lemma DeliversOneMore<T>(delivered: seq<T>, s: State<T>, s': State<T>)
    requires Next(s, s') && Inv(s) && EmptyAnswers(s) && s.consumed == delivered + Held(s)
    ensures s'.ring.Valid() && EmptyAnswers(s')
    ensures s'.consumed == delivered + Received(s, s') + Held(s')
  {
    var t: nat :| t < |s.threads| && (ThreadStep(s, t, s') || EnvironmentStep(s, t, s'));
    hide Held, Received, EmptyAnswers, ThreadStep, EnvironmentStep;
    StepDelivers(s, t, s');
    StepAnswers(s, t, s');
    assert delivered + (Received(s, s') + Held(s')) == delivered + Received(s, s') + Held(s');
  }

  lemma NothingHeld<T>(s: State<T>)
    requires Init(s)
    ensures Held(s) == [] && EmptyAnswers(s)
  {
  }

  /** The value a call of produce still has to push. */
  function Due<T>(pc: Pc<T>): multiset<T> {
    match pc
    case ProduceLock(v) => multiset{v}
    case ProduceTest(v) => multiset{v}
    case Waiting(v) => multiset{v}
    case Woken(v) => multiset{v}
    case ProducePush(v) => multiset{v}
    case _ => multiset{}
  }

  function AllDue<T>(threads: seq<Pc<T>>): multiset<T> {
    if threads == [] then multiset{} else AllDue(threads[..|threads| - 1]) + Due(threads[|threads| - 1])
  }

  lemma {:induction false} AllDueUpdate<T>(threads: seq<Pc<T>>, t: nat, pc: Pc<T>)
    requires t < |threads|
    ensures AllDue(threads[t := pc]) + Due(threads[t]) == AllDue(threads) + Due(pc)
  {
    hide Due;
    var n := |threads| - 1;
    var updated := threads[t := pc];
    if t < n {
      assert updated[..n] == threads[..n][t := pc];
      AllDueUpdate(threads[..n], t, pc);
      hide AllDue;
      assert AllDue(updated[..n]) + Due(threads[n]) + Due(threads[t])
          == AllDue(updated[..n]) + Due(threads[t]) + Due(threads[n]);
    } else {
      assert updated[..n] == threads[..n];
    }
  }

  lemma {:induction false} AllDueSame<T>(a: seq<Pc<T>>, b: seq<Pc<T>>)
    requires |a| == |b| && forall i :: 0 <= i < |a| ==> Due(a[i]) == Due(b[i])
    ensures AllDue(a) == AllDue(b)
  {
    hide Due;
    if a != [] {
      AllDueSame(a[..|a| - 1], b[..|b| - 1]);
    }
  }

  /** Thread t starts a call of produce. */
  ghost predicate Starts<T>(s: State<T>, t: nat, s': State<T>) {
    t < |s.threads| == |s'.threads| && s.threads[t].Idle? && s'.threads[t].ProduceLock?
  }

  /** The value produce is called with in a step. */
  ghost function Given<T>(s: State<T>, s': State<T>): multiset<T> {
    if t: nat :| Starts(s, t, s') then multiset{s'.threads[t].value} else multiset{}
  }

  ghost function AllGiven<T>(run: seq<State<T>>, i: nat): multiset<T>
    requires i < |run|
  {
    if i == 0 then multiset{} else AllGiven(run, i - 1) + Given(run[i - 1], run[i])
  }

  /** A statement other than signal moves its own thread only, and only push
      settles what is due. */
  lemma OwnStep<T>(s: State<T>, t: nat, s': State<T>)
    requires t < |s.threads| && (ThreadStep(s, t, s') || EnvironmentStep(s, t, s'))
    requires !s.threads[t].ProduceSignal? && !s.threads[t].ConsumeSignal?
    ensures |s'.threads| == |s.threads| && s'.threads == s.threads[t := s'.threads[t]]
    ensures s'.produced == s.produced + if s.threads[t].ProducePush? then [s.threads[t].value] else []
    ensures Due(s'.threads[t])
         == if s.threads[t].ProducePush? then multiset{}
            else if s.threads[t].Idle? && s'.threads[t].ProduceLock? then multiset{s'.threads[t].value}
            else Due(s.threads[t])
  {
    hide Ring.Push, Ring.Pop, Ring.Front, Ring.Full, Ring.Empty, Signalled;
  }

  lemma OwnDue<T>(s: State<T>, t: nat, s': State<T>) returns (given: multiset<T>)
    requires t < |s.threads| && (ThreadStep(s, t, s') || EnvironmentStep(s, t, s'))
    requires !s.threads[t].ProduceSignal? && !s.threads[t].ConsumeSignal?
    ensures |s'.threads| == |s.threads| && s'.threads == s.threads[t := s'.threads[t]]
    ensures multiset(s'.produced) + Due(s'.threads[t]) == multiset(s.produced) + Due(s.threads[t]) + given
    ensures given == if Starts(s, t, s') then multiset{s'.threads[t].value} else multiset{}
  {
    OwnStep(s, t, s');
    hide ThreadStep, EnvironmentStep;
    given := if Starts(s, t, s') then multiset{s'.threads[t].value} else multiset{};
  }

  lemma GivenBy<T>(s: State<T>, t: nat, s': State<T>)
    requires t < |s.threads| == |s'.threads| && s'.threads == s.threads[t := s'.threads[t]]
    ensures Given(s, s') == if Starts(s, t, s') then multiset{s'.threads[t].value} else multiset{}
  {
    forall u: nat | u != t
      ensures !Starts(s, u, s')
    {
    }
  }

  lemma StepProduces<T(!new)>(s: State<T>, t: nat, s': State<T>)
    requires t < |s.threads| && (ThreadStep(s, t, s') || EnvironmentStep(s, t, s'))
    ensures multiset(s'.produced) + AllDue(s'.threads) == multiset(s.produced) + AllDue(s.threads) + Given(s, s')
  {
    if s.threads[t].ProduceSignal? || s.threads[t].ConsumeSignal? {
      SignalDue(s, t, s');
    } else {
      hide ThreadStep, EnvironmentStep, AllDue, Due, Given, Starts;
      var given := OwnDue(s, t, s');
      GivenBy(s, t, s');
      AllDueUpdate(s.threads, t, s'.threads[t]);
      DueBalance(multiset(s'.produced), multiset(s.produced), AllDue(s'.threads), AllDue(s.threads),
                 Due(s'.threads[t]), Due(s.threads[t]), given);
    }
  }

  lemma SignalDue<T>(s: State<T>, t: nat, s': State<T>)
    requires t < |s.threads| && (ThreadStep(s, t, s') || EnvironmentStep(s, t, s'))
    requires s.threads[t].ProduceSignal? || s.threads[t].ConsumeSignal?
    ensures s'.produced == s.produced && AllDue(s'.threads) == AllDue(s.threads) && Given(s, s') == multiset{}
  {
    var pc := s.threads[t];
    var done := if pc.ProduceSignal? then ProduceUnlock else ConsumeUnlock(Some(pc.front));
    assert Signalled(s.threads[t := done], s'.threads);
    hide ThreadStep, EnvironmentStep, AllDue;
    SignalledDue(s.threads, t, done, s'.threads);
    AllDueSame(s.threads, s'.threads);
    assert forall u: nat :: !Starts(s, u, s');
  }

  lemma SignalledDue<T>(threads: seq<Pc<T>>, t: nat, done: Pc<T>, after: seq<Pc<T>>)
    requires t < |threads| && Signalled(threads[t := done], after)
    requires threads[t].ProduceSignal? || threads[t].ConsumeSignal?
    requires done.ProduceUnlock? || done.ConsumeUnlock?
    ensures |after| == |threads|
    ensures forall u :: 0 <= u < |threads| ==>
              Due(after[u]) == Due(threads[u]) && (after[u].ProduceLock? ==> after[u] == threads[u])
  {
    var mid := threads[t := done];
    assert forall u :: 0 <= u < |mid| ==>
        after[u] == mid[u] || (mid[u].Waiting? && after[u] == Woken(mid[u].value));
    hide Signalled, Due;
    forall u | 0 <= u < |threads|
      ensures Due(after[u]) == Due(threads[u]) && (after[u].ProduceLock? ==> after[u] == threads[u])
    {
      assert u != t ==> mid[u] == threads[u];
      SameDue(threads[u], after[u], done);
    }
  }

  lemma SameDue<T>(before: Pc<T>, after: Pc<T>, done: Pc<T>)
    requires done.ProduceUnlock? || done.ConsumeUnlock?
    requires || after == before
             || (before.Waiting? && after == Woken(before.value))
             || ((before.ProduceSignal? || before.ConsumeSignal?) && after == done)
    ensures Due(after) == Due(before)
  {
  }

  lemma DueBalance<T(!new)>(after: multiset<T>, before: multiset<T>, due': multiset<T>, due: multiset<T>,
                            own': multiset<T>, own: multiset<T>, given: multiset<T>)
    requires after + own' == before + own + given && due' + own == due + own'
    ensures after + due' == before + due + given
  {
    forall x: T
      ensures (after + due')[x] == (before + due + given)[x]
    {
      assert (after + own')[x] == (before + own + given)[x] && (due' + own)[x] == (due + own')[x];
    }
  }

  /** In every interleaving, what produce was called with is what was pushed and
      what calls under way still have to push: no call returns before its value is
      in the ring, and none pushes another. */
  lemma {:induction false} CallsProduce<T(!new)>(run: seq<State<T>>, i: nat)
    requires Execution(run) && i < |run|
    ensures AllGiven(run, i) == multiset(run[i].produced) + AllDue(run[i].threads)
  {
    if i == 0 {
      NothingDue(run[0].threads);
    } else {
      CallsProduce(run, i - 1);
      QueueIsSafe(run, i - 1);
      var s, s' := run[i - 1], run[i - 1 + 1];
      assert Next(s, s');
      var t: nat :| t < |s.threads| && (ThreadStep(s, t, s') || EnvironmentStep(s, t, s'));
      hide ThreadStep, EnvironmentStep, AllDue, Given;
      StepProduces(s, t, s');
    }
  }

  lemma {:induction false} NothingDue<T>(threads: seq<Pc<T>>)
    requires forall t :: 0 <= t < |threads| ==> threads[t].Idle?
    ensures AllDue(threads) == multiset{}
  {
    if threads != [] {
      NothingDue(threads[..|threads| - 1]);
    }
  }

  // ---- progress ----

  /** No thread can run: each is outside any call or asleep on the condition. */
  ghost predicate Quiet<T>(s: State<T>) {
    forall t :: 0 <= t < |s.threads| ==> s.threads[t].Idle? || s.threads[t].Waiting?
  }

  ghost predicate Enabled<T(!new)>(s: State<T>) {
    exists t: nat, s' :: t < |s.threads| && ThreadStep(s, t, s')
  }

  /** The waiters wake all at once: one of the outcomes signal may have. */
  function WakeAll<T>(threads: seq<Pc<T>>): (r: seq<Pc<T>>)
    ensures Signalled(threads, r)
  {
    var r := seq(|threads|, i requires 0 <= i < |threads| =>
      if threads[i].Waiting? then Woken(threads[i].value) else threads[i]);
    assert forall u :: 0 <= u < |threads| && threads[u].Waiting? ==> r[u].Woken?;
    r
  }

  /** A thread that is neither asleep nor kept out by the mutex can run. */
  lemma CanRun<T>(s: State<T>, t: nat) returns (s': State<T>)
    requires t < |s.threads| && Inv(s)
    requires !s.threads[t].Idle? && !s.threads[t].Waiting?
    requires s.threads[t].Critical() || s.owner.None?
    ensures ThreadStep(s, t, s')
  {
    hide MutualExclusion, Fifo, NoLostWakeup, Signalled;
    match s.threads[t]
    case ProduceLock(v) => s' := s.At(t, ProduceTest(v)).(owner := Some(t));
    case ProduceTest(v) =>
      s' := if s.ring.Full() then s.At(t, Waiting(v)).(owner := None) else s.At(t, ProducePush(v));
    case Woken(v) => s' := s.At(t, ProduceTest(v)).(owner := Some(t));
    case ProducePush(v) =>
      PushAppends(s.ring, v);
      s' := s.At(t, ProduceSignal).(ring := s.ring.Push(v), produced := s.produced + [v]);
    case ProduceSignal => s' := s.(threads := WakeAll(s.At(t, ProduceUnlock).threads));
    case ProduceUnlock => s' := s.At(t, Idle).(owner := None);
    case ConsumeLock => s' := s.At(t, ConsumeTest).(owner := Some(t));
    case ConsumeTest => s' := if s.ring.Empty() then s.At(t, ConsumeUnlock(None)) else s.At(t, ConsumeFront);
    case ConsumeFront => s' := s.At(t, ConsumePop(s.ring.Front()));
    case ConsumePop(x) =>
      s' := s.At(t, ConsumeSignal(x)).(ring := s.ring.Pop(), consumed := s.consumed + [x]);
    case ConsumeSignal(x) => s' := s.(threads := WakeAll(s.At(t, ConsumeUnlock(Some(x))).threads));
    case ConsumeUnlock(r) => s' := s.At(t, Idle).(owner := None);
  }

  /** Deadlock freedom: whenever some thread is inside a call and not asleep,
      some thread can run; and sleepers are left alone only when the ring is full. */
  lemma NeverStuck<T(!new)>(s: State<T>)
    requires Inv(s)
    ensures Enabled(s) <==> !Quiet(s)
    ensures Quiet(s) && SomeoneWaits(s) ==> s.ring.count == |s.ring.buffer|
  {
    if !Quiet(s) {
      var t: nat :| t < |s.threads| && !s.threads[t].Idle? && !s.threads[t].Waiting?;
      var runner := if s.owner.Some? then s.owner.value else t;
      assert s.owner.Some? ==> s.threads[runner].Critical();
      var _ := CanRun(s, runner);
    }
  }

  /** Calls that still have a signal ahead of them. */
  function Pending<T>(pc: Pc<T>): nat {
    if pc.Idle? || pc.ProduceUnlock? || pc.ConsumeUnlock? then 0 else 1
  }

  /** Statements left, if nobody signals meanwhile. */
  function Left<T>(pc: Pc<T>): nat {
    match pc
    case Idle => 0
    case Waiting(_) => 0
    case ProduceUnlock => 1
    case ConsumeUnlock(_) => 1
    case ProduceSignal => 2
    case ConsumeSignal(_) => 2
    case ProducePush(_) => 3
    case ConsumePop(_) => 3
    case ProduceTest(_) => 4
    case ConsumeFront => 4
    case ProduceLock(_) => 5
    case Woken(_) => 5
    case ConsumeTest => 5
    case ConsumeLock => 6
  }

  function Sum<T>(weight: Pc<T> -> nat, threads: seq<Pc<T>>): nat {
    if threads == [] then 0 else Sum(weight, threads[..|threads| - 1]) + weight(threads[|threads| - 1])
  }

  lemma {:induction false} SumUpdate<T>(weight: Pc<T> -> nat, threads: seq<Pc<T>>, t: nat, pc: Pc<T>)
    requires t < |threads|
    ensures Sum(weight, threads[t := pc]) + weight(threads[t]) == Sum(weight, threads) + weight(pc)
  {
    var n := |threads| - 1;
    var updated := threads[t := pc];
    if t < n {
      assert updated[..n] == threads[..n][t := pc];
      SumUpdate(weight, threads[..n], t, pc);
    } else {
      assert updated[..n] == threads[..n];
    }
  }

  lemma {:induction false} SumPointwise<T>(weight: Pc<T> -> nat, a: seq<Pc<T>>, b: seq<Pc<T>>)
    requires |a| == |b| && forall i :: 0 <= i < |a| ==> weight(a[i]) == weight(b[i])
    ensures Sum(weight, a) == Sum(weight, b)
  {
    if a != [] {
      SumPointwise(weight, a[..|a| - 1], b[..|b| - 1]);
    }
  }

  lemma {:induction false} LeftIsBounded<T>(threads: seq<Pc<T>>)
    ensures Sum(Left, threads) <= 6 * |threads|
  {
    if threads != [] {
      LeftIsBounded(threads[..|threads| - 1]);
    }
  }

  /** Bounds the statements still to run if no call is started. */
  ghost function Measure<T>(s: State<T>): nat {
    (6 * |s.threads| + 1) * Sum(Pending, s.threads) + Sum(Left, s.threads)
  }

  lemma LexicographicDrop(k: nat, p: nat, l: nat, p': nat, l': nat)
    requires (p' < p && l' < k) || (p' == p && l' < l)
    ensures k * p' + l' < k * p + l
  {
    if p' < p {
      MultiplesGrow(k, p' + 1, p);
    }
  }

  lemma StepDecreases<T>(s: State<T>, t: nat, s': State<T>)
    requires t < |s.threads| && ThreadStep(s, t, s')
    ensures |s'.threads| == |s.threads| && Measure(s') < Measure(s)
  {
    hide ThreadStep, Left, Pending, Sum;
    var pc := s.threads[t];
    LeftIsBounded(s'.threads);
    if pc.ProduceSignal? || pc.ConsumeSignal? {
      SignalStep(s, t, s');
    } else {
      var pc' := PlainStep(s, t, s');
      SumUpdate(Pending, s.threads, t, pc');
      SumUpdate(Left, s.threads, t, pc');
    }
    LexicographicDrop(6 * |s.threads| + 1, Sum(Pending, s.threads), Sum(Left, s.threads),
                      Sum(Pending, s'.threads), Sum(Left, s'.threads));
  }

  /** A signal uses itself up; the woken had a signal ahead of them before. */
  lemma SignalStep<T>(s: State<T>, t: nat, s': State<T>)
    requires t < |s.threads| && ThreadStep(s, t, s')
    requires s.threads[t].ProduceSignal? || s.threads[t].ConsumeSignal?
    ensures |s'.threads| == |s.threads| && Sum(Pending, s'.threads) < Sum(Pending, s.threads)
  {
    hide Left, Sum;
    var pc := s.threads[t];
    var done := if pc.ProduceSignal? then ProduceUnlock else ConsumeUnlock(Some(pc.front));
    SumUpdate(Pending, s.threads, t, done);
    SumPointwise(Pending, s.At(t, done).threads, s'.threads);
  }

  /** Every statement but signal moves one thread, and moves it forward. */
  lemma PlainStep<T>(s: State<T>, t: nat, s': State<T>) returns (pc': Pc<T>)
    requires t < |s.threads| && ThreadStep(s, t, s')
    requires !s.threads[t].ProduceSignal? && !s.threads[t].ConsumeSignal?
    ensures s'.threads == s.threads[t := pc']
    ensures Left(pc') < Left(s.threads[t]) && Pending(pc') <= Pending(s.threads[t])
  {
    pc' := s'.threads[t];
  }

  /** A run in which the threads finish what they began. */
  ghost predicate Finishing<T>(run: seq<State<T>>) {
    |run| > 0 && forall i :: 0 <= i < |run| - 1 ==> SomeThreadSteps(run[i], run[i + 1])
  }

  ghost predicate SomeThreadSteps<T>(s: State<T>, s': State<T>) {
    exists t: nat :: t < |s.threads| && ThreadStep(s, t, s')
  }

  lemma {:induction false} FinishingIsShort<T>(run: seq<State<T>>, i: nat)
    requires Finishing(run) && Inv(run[0]) && i < |run|
    ensures Inv(run[i]) && |run[i].threads| == |run[0].threads|
    ensures |run[i].ring.buffer| == |run[0].ring.buffer|
    ensures Measure(run[i]) + i <= Measure(run[0])
  {
    if i > 0 {
      FinishingIsShort(run, i - 1);
      assert SomeThreadSteps(run[i - 1], run[i - 1 + 1]);
      var t: nat :| t < |run[i - 1].threads| && ThreadStep(run[i - 1], t, run[i]);
      StepDecreases(run[i - 1], t, run[i]);
      assert Next(run[i - 1], run[i]);
      NextKeepsInv(run[i - 1], run[i]);
    }
  }

  /** Once no new calls are started, every schedule, however unfair, is over
      after a bounded number of steps; it can stop only when every call has
      returned but those of producers asleep on a ring that really is full. */
  lemma CallsFinish<T(!new)>(run: seq<State<T>>)
    requires Finishing(run) && Inv(run[0])
    ensures |run| <= Measure(run[0]) + 1
    ensures var last := run[|run| - 1];
            && Inv(last) && |last.ring.buffer| == |run[0].ring.buffer|
            && (!Enabled(last) ==> Quiet(last) && (SomeoneWaits(last) ==> last.ring.count == |last.ring.buffer|))
  {
    FinishingIsShort(run, |run| - 1);
    NeverStuck(run[|run| - 1]);
  }
}

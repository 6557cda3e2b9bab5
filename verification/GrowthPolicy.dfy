// The capacity rule shared by both vector insertions of include/mslcpp/vector.h,
// and what it costs over a run of push_back calls.
module GrowthPolicy {
  import opened Basics

  /** The capacity reached from `cap` when `newSize` elements must fit. */
  function Grown(newSize: nat, cap: nat, ms: nat): (r: nat)
    requires 0 < cap <= ms && newSize <= ms
    ensures newSize <= r <= ms && cap <= r
    decreases ms - cap
  {
    if newSize <= cap then cap
    else if cap < ms / 2 then Grown(newSize, 2 * cap, ms)
    else Grown(newSize, ms, ms)
  }

  function StartCap(cap: nat): nat {
    if cap != 0 then cap else 1
  }

  /** Growth is tight: unless it jumps to the limit or was not needed, the new
      capacity is less than twice what was asked for. */
  lemma {:induction false} GrownIsTight(newSize: nat, cap: nat, ms: nat)
    requires 0 < cap <= ms && newSize <= ms
    ensures var r := Grown(newSize, cap, ms); r == cap || r == ms || r < 2 * newSize
    ensures newSize <= ms / 2 ==> Grown(newSize, cap, ms) == cap || Grown(newSize, cap, ms) < 2 * newSize
    ensures newSize <= cap ==> Grown(newSize, cap, ms) == cap
    ensures newSize > cap && newSize <= 2 * cap && cap < ms / 2 ==> Grown(newSize, cap, ms) == 2 * cap
    decreases ms - cap
  {
    if newSize > cap && cap < ms / 2 {
      GrownIsTight(newSize, 2 * cap, ms);
    }
  }

  /** The growth loop; no doubling leaves the 32-bit range. */
  method GrowCapacity(newSize: nat, cap: nat, ms: nat) returns (newCap: nat)
    requires cap <= ms < SPACE32 && 0 < newSize <= ms
    ensures newCap == Grown(newSize, StartCap(cap), ms)
  {
    newCap := StartCap(cap);
    while newSize > newCap
      invariant 0 < newCap <= ms
      invariant Grown(newSize, newCap, ms) == Grown(newSize, StartCap(cap), ms)
      decreases ms - newCap
    {
      if newCap < ms / 2 {
        assert newCap * 2 < SPACE32;
        newCap := newCap * 2;
      } else {
        newCap := ms;
      }
    }
  }

  /** Sizes of a vector under push_back, with the number of elements that
      reallocations have relocated so far. */
  datatype Usage = Usage(size: nat, cap: nat, moved: nat)

  /** The effect of inserting n elements. */
  function AfterInsert(u: Usage, n: nat, ms: nat): Usage
    requires u.size <= u.cap <= ms && u.size + n <= ms
  {
    if u.size + n <= u.cap then u.(size := u.size + n)
    else Usage(u.size + n, Grown(u.size + n, StartCap(u.cap), ms), u.moved + u.size)
  }

  ghost predicate Amortized(u: Usage, ms: nat) {
    && u.size <= u.cap <= ms
    && (u.size == 0 ==> u.moved == 0)
    && (u.size > 0 ==> u.moved < 2 * u.size)
    && (u.cap < ms ==> u.moved < StartCap(u.cap))
  }

  lemma PushKeepsAmortized(u: Usage, ms: nat)
    requires Amortized(u, ms) && u.size < ms
    ensures Amortized(AfterInsert(u, 1, ms), ms)
  {
    if u.size == u.cap {
      GrownIsTight(u.size + 1, StartCap(u.cap), ms);
    }
  }

  function AfterPushes(m: nat, ms: nat): (u: Usage)
    requires m <= ms
    ensures u.size == m <= u.cap <= ms
  {
    if m == 0 then Usage(0, 0, 0) else AfterInsert(AfterPushes(m - 1, ms), 1, ms)
  }

  /** After m push_backs the storage is less than twice what is in it, as long as
      that is at most half the limit. */
  lemma {:induction false} PushBackSpace(m: nat, ms: nat)
    requires 0 < m <= ms / 2
    ensures AfterPushes(m, ms).cap < 2 * m
  {
    var u := AfterPushes(m - 1, ms);
    if m > 1 {
      PushBackSpace(m - 1, ms);
    }
    if u.size == u.cap {
      GrownIsTight(m, StartCap(u.cap), ms);
    }
  }

  /** m push_backs from an empty vector relocate fewer than 2m elements. */
  lemma {:induction false} PushBackCost(m: nat, ms: nat)
    requires 0 < m <= ms
    ensures AfterPushes(m, ms).moved < 2 * m
  {
    AmortizedAlways(m, ms);
  }

  lemma {:induction false} AmortizedAlways(m: nat, ms: nat)
    requires m <= ms
    ensures Amortized(AfterPushes(m, ms), ms)
  {
    if m > 0 {
      AmortizedAlways(m - 1, ms);
      PushKeepsAmortized(AfterPushes(m - 1, ms), ms);
    }
  }
}

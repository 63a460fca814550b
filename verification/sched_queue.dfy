/** The fixed-size rotating queue (src/scheduling/scheduler/queue.cpp). */
module SchedQueue {
  const SLOTS := 16

  /** The first element moved to the end. */
  function Rotate(q: seq<nat>): (r: seq<nat>)
    ensures |r| == |q|
  {
    if q == [] then [] else q[1..] + [q[0]]
  }

  class Queue {
    var len: nat
    const list: array<nat>

    ghost predicate Valid()
      reads this
    {
      list.Length == SLOTS && len <= SLOTS
    }

    ghost function Contents(): (q: seq<nat>)
      requires Valid()
      reads this, list
      ensures |q| == len
    {
      list[..len]
    }

    constructor ()
      ensures Valid() && Contents() == [] && fresh(list)
    {
      list := new nat[SLOTS];
      len := 0;
      new;
      list[0] := 0;
    }

    method Add(num: nat)
      requires Valid() && len < SLOTS
      modifies this, list
      ensures Valid() && Contents() == old(Contents()) + [num]
    {
      list[len] := num;
      len := len + 1;
    }

    /** Moves every element one place down, using the slot behind the last one as
        scratch; so a full array cannot be rotated. */
    method Shift()
      requires Valid() && len < SLOTS
      modifies list
      ensures list[..len] == Rotate(old(list[..len]))
    {
      list[len] := list[0];
      for i := 0 to len
        invariant forall k :: 0 <= k < i ==> list[k] == old(if k + 1 < len then list[k + 1] else list[0])
        invariant forall k :: i <= k < len ==> list[k] == old(list[k])
        invariant list[len] == old(list[0])
      {
        list[i] := list[i + 1];
      }
      ghost var was := old(list[..len]);
      assert forall k :: 0 <= k < len ==> list[k] == Rotate(was)[k];
    }

    method Next()
      requires Valid() && len < SLOTS
      modifies list
      ensures Valid() && Contents() == Rotate(old(Contents()))
    {
      Shift();
    }

    method RemoveFirst()
      requires Valid() && 0 < len < SLOTS
      modifies this, list
      ensures Valid() && Contents() == old(Contents())[1..]
    {
      Shift();
      len := len - 1;
    }
  }

  /** n rotations move the first n elements to the end, in their order. */
  function RotateTimes(q: seq<nat>, n: nat): seq<nat> {
    if n == 0 then q else Rotate(RotateTimes(q, n - 1))
  }

  lemma {:induction false} RotateTimesIs(q: seq<nat>, n: nat)
    requires n <= |q|
    ensures RotateTimes(q, n) == q[n..] + q[..n]
  {
    if n > 0 {
      RotateTimesIs(q, n - 1);
      var r := q[n - 1..] + q[..n - 1];
      assert r[1..] + [r[0]] == q[n..] + q[..n];
    }
  }
}

/** Physical frames as a set of marked indices and three RAM counters, and what
    the allocator's calls do to them over whole runs
    (src/paging/page_frame_allocator.cpp:58-173). */
module FramesModel {
  const FRAME := 4096
  const U64 := 0x1_0000_0000_0000_0000

  /** limit is the last index whose bit the bitmap reaches. */
  datatype Frames = Frames(limit: nat, marked: set<nat>, free: nat, used: nat, reserved: nat)

  datatype Action = Lock | Free | Reserve | Unreserve

  function Wrap(x: int): nat {
    x % U64
  }

  /** lock_page, free_page, reserve_page and unreserve_page on frame i. */
  function Touch(f: Frames, a: Action, i: nat): Frames {
    if i > f.limit || (i in f.marked <==> a.Lock? || a.Reserve?) then f
    else match a
      case Lock => f.(marked := f.marked + {i}, free := Wrap(f.free - FRAME), used := Wrap(f.used + FRAME))
      case Free => f.(marked := f.marked - {i}, free := Wrap(f.free + FRAME), used := Wrap(f.used - FRAME))
      case Reserve => f.(marked := f.marked + {i}, free := Wrap(f.free - FRAME), reserved := Wrap(f.reserved + FRAME))
      case Unreserve => f.(marked := f.marked - {i}, free := Wrap(f.free + FRAME), reserved := Wrap(f.reserved - FRAME))
  }

  /** The plural forms: n frames from i on, in order. */
  function TouchRange(f: Frames, a: Action, i: nat, n: nat): Frames {
    if n == 0 then f else Touch(TouchRange(f, a, i, n - 1), a, i + n - 1)
  }

  predicate InRun(x: nat, i: nat, n: nat) {
    i <= x < i + n
  }

  /** The frames of a range that the bitmap reaches. */
  function Covered(i: nat, n: nat, limit: nat): set<nat> {
    set x: nat | x <= limit && InRun(x, i, n)
  }

  lemma {:induction false} TouchRangeMarks(f: Frames, a: Action, i: nat, n: nat)
    ensures TouchRange(f, a, i, n).limit == f.limit
    ensures TouchRange(f, a, i, n).marked ==
            if a.Lock? || a.Reserve? then f.marked + Covered(i, n, f.limit) else f.marked - Covered(i, n, f.limit)
  {
    if n == 0 {
      assert Covered(i, 0, f.limit) == {};
    } else {
      TouchRangeMarks(f, a, i, n - 1);
      assert Covered(i, n, f.limit) == Covered(i, n - 1, f.limit) + if i + n - 1 <= f.limit then {i + n - 1} else {};
    }
  }

  // ----- the counters -----

  /** used plus reserved, less 4096 for every set bit. */
  function Excess(f: Frames): nat {
    Wrap(f.used + f.reserved - FRAME * |f.marked|)
  }

  function Memory(f: Frames): nat {
    Wrap(f.free + f.used + f.reserved)
  }

  lemma WrapAdds(x: int, y: int)
    ensures Wrap(Wrap(x) + y) == Wrap(x + y)
  {
  }

  lemma TouchBalances(f: Frames, a: Action, i: nat)
    ensures Excess(Touch(f, a, i)) == Excess(f) && Memory(Touch(f, a, i)) == Wrap(Memory(f))
  {
    hide Wrap;
    var g := Touch(f, a, i);
    WrapAdds(f.free + f.used + f.reserved, 0);
    if g != f {
      var up := if a.Lock? || a.Reserve? then 1 else -1;
      CardinalityMoves(f.marked, i);
      assert |g.marked| == |f.marked| + up;
      var others := if a.Lock? || a.Free? then f.reserved else f.used;
      var moved := if a.Lock? || a.Free? then f.used else f.reserved;
      WrapAdds(moved + FRAME * up, others - FRAME * |g.marked|);
      WrapAdds(moved + FRAME * up, Wrap(f.free - FRAME * up) + others);
      WrapAdds(f.free - FRAME * up, moved + FRAME * up + others);
    }
  }

  lemma CardinalityMoves(s: set<nat>, i: nat)
    ensures i !in s ==> |s + {i}| == |s| + 1
    ensures i in s ==> |s - {i}| == |s| - 1
  {
  }

  lemma {:induction false} TouchRangeBalances(f: Frames, a: Action, i: nat, n: nat)
    requires f.free < U64 && f.used < U64 && f.reserved < U64
    ensures Excess(TouchRange(f, a, i, n)) == Excess(f) && Memory(TouchRange(f, a, i, n)) == Memory(f)
  {
    hide Touch, Excess;
    if n > 0 {
      TouchRangeBalances(f, a, i, n - 1);
      TouchBalances(TouchRange(f, a, i, n - 1), a, i + n - 1);
    }
  }

  // ----- the searches -----

  /** The lowest unmarked index from x on, limit if there is none. */
  function Lowest(marked: set<nat>, limit: nat, x: nat): (r: nat)
    requires x <= limit
    ensures x <= r <= limit && (r < limit ==> r !in marked)
    ensures forall y :: x <= y < r ==> y in marked
    decreases limit - x
  {
    if x == limit then limit else if x in marked then Lowest(marked, limit, x + 1) else x
  }

  predicate RunFree(marked: set<nat>, x: nat, n: nat) {
    forall y: nat :: x <= y < x + n ==> y !in marked
  }

  /** request_pages' probing: past an obstacle it jumps over n + 1 indices.
      limit stands for no run found. */
  ghost function Probe(marked: set<nat>, limit: nat, n: nat, x: nat): (r: nat)
    ensures r <= limit && (r < limit ==> x <= r && r !in marked && RunFree(marked, r, n))
    decreases limit - x
  {
    if x >= limit then limit
    else if x in marked then Probe(marked, limit, n, x + 1)
    else if RunFree(marked, x, n) then x
    else Probe(marked, limit, n, x + n + 1)
  }

  lemma {:induction false} ProbeSkipsMarked(marked: set<nat>, limit: nat, n: nat, x: nat, y: nat)
    requires x <= y <= limit && forall z: nat :: x <= z < y ==> z in marked
    ensures Probe(marked, limit, n, x) == Probe(marked, limit, n, y)
    decreases y - x
  {
    if x < y { ProbeSkipsMarked(marked, limit, n, x + 1, y); }
  }

  lemma ProbeFrom(marked: set<nat>, limit: nat, n: nat, x: nat)
    ensures x >= limit ==> Probe(marked, limit, n, x) == limit
    ensures x < limit && x in marked ==> Probe(marked, limit, n, x) == Probe(marked, limit, n, x + 1)
    ensures x < limit && x !in marked && RunFree(marked, x, n) ==> Probe(marked, limit, n, x) == x
    ensures x < limit && x !in marked && !RunFree(marked, x, n) ==>
      Probe(marked, limit, n, x) == Probe(marked, limit, n, x + n + 1)
  {
  }

  /** For at most one page the search is complete and finds the lowest. */
  lemma {:induction false} ProbeOfOne(marked: set<nat>, limit: nat, n: nat, x: nat)
    requires n <= 1 && x <= limit
    ensures Probe(marked, limit, n, x) == Lowest(marked, limit, x)
    decreases limit - x
  {
    if x < limit && x in marked { ProbeOfOne(marked, limit, n, x + 1); }
  }

  /** The search of request_pages never misses a run of n frames, whatever is marked
      in a bitmap of whole bytes. */
  ghost predicate Complete(n: nat) {
    forall marked: set<nat>, limit: nat, x: nat ::
      limit % 8 == 0 && x < limit && RunFree(marked, x, n) && x !in marked ==> Probe(marked, limit, n, 0) < limit
  }

  /** It is complete exactly for requests of at most one page. */
  lemma CompleteOnlyForOne(n: nat)
    ensures Complete(n) <==> n <= 1
  {
    if n <= 1 {
      forall marked: set<nat>, limit: nat, x: nat | limit % 8 == 0 && x < limit && RunFree(marked, x, n) && x !in marked
        ensures Probe(marked, limit, n, 0) < limit
      {
        ProbeOfOne(marked, limit, n, 0);
      }
    } else {
      MissedRun(n);
    }
  }

  /** Frame 1 and every frame from n + 2 on, below limit. */
  function Obstacles(n: nat, limit: nat): (m: set<nat>)
    requires limit >= n + 2
    ensures forall y: nat :: y in m <==> y == 1 || n + 2 <= y < limit
  {
    {1} + Covered(n + 2, limit - (n + 2), limit)
  }

  /** Between the obstacles the run 2 .. n + 1 is free, but the probes jump from 0
      into it and from there among frames that are all marked. The bitmap has as
      many whole bytes as 2n + 2 frames need. */
  lemma MissedRun(n: nat)
    requires n >= 2
    ensures !Complete(n)
  {
    var limit := (2 * n + 9) / 8 * 8;
    assert 2 * n + 2 <= limit && limit % 8 == 0;
    var marked := Obstacles(n, limit);
    assert RunFree(marked, 2, n) && 2 !in marked;
    assert !RunFree(marked, 0, n) by { assert 1 in marked; }
    assert !RunFree(marked, n + 1, n) by { assert n + 2 in marked; }
    ProbeFrom(marked, limit, n, 0);
    ProbeFrom(marked, limit, n, n + 1);
    ProbeSkipsMarked(marked, limit, n, 2 * n + 2, limit);
    ProbeFrom(marked, limit, n, limit);
  }

  // ----- whole runs -----

  datatype Run = Run(start: nat, count: nat)

  /** The frames the allocator manages, and what it has handed out and not got back. */
  datatype State = State(frames: Frames, owned: set<Run>)

  datatype Op = RequestPage | RequestPages(count: nat) | FreePages(run: Run) | Other(action: Action, i: nat, count: nat)

  function Part(r: Run, limit: nat): set<nat> {
    Covered(r.start, r.count, limit)
  }

  ghost predicate Good(s: State) {
    && (forall r :: r in s.owned ==> Part(r, s.frames.limit) <= s.frames.marked)
    && (forall q, r :: q in s.owned && r in s.owned && q != r ==> Part(q, s.frames.limit) !! Part(r, s.frames.limit))
  }

  /** Callers free only what they own; nothing else is freed or unreserved under them. */
  ghost predicate Legal(s: State, op: Op) {
    match op
    case RequestPage => true
    case RequestPages(_) => true
    case FreePages(run) => run in s.owned
    case Other(a, i, n) =>
      a.Lock? || a.Reserve? || forall r :: r in s.owned ==> Part(r, s.frames.limit) !! Covered(i, n, s.frames.limit)
  }

  ghost function Take(s: State, x: nat, n: nat): State {
    if x >= s.frames.limit then s else State(TouchRange(s.frames, Lock, x, n), s.owned + {Run(x, n)})
  }

  ghost function Step(s: State, op: Op): State {
    match op
    case RequestPage => Take(s, Lowest(s.frames.marked, s.frames.limit, 0), 1)
    case RequestPages(n) => Take(s, Probe(s.frames.marked, s.frames.limit, n, 0), n)
    case FreePages(run) => State(TouchRange(s.frames, Free, run.start, run.count), s.owned - {run})
    case Other(a, i, n) => s.(frames := TouchRange(s.frames, a, i, n))
  }

  /** A run handed out was free: it meets no run still held. */
  lemma TakeKeepsGood(s: State, x: nat, n: nat)
    requires Good(s) && (x < s.frames.limit ==> RunFree(s.frames.marked, x, n))
    ensures Good(Take(s, x, n))
  {
    if x < s.frames.limit {
      TouchRangeMarks(s.frames, Lock, x, n);
      assert Covered(x, n, s.frames.limit) !! s.frames.marked;
    }
  }

  lemma StepKeepsGood(s: State, op: Op)
    requires Good(s) && Legal(s, op)
    ensures Good(Step(s, op)) && Step(s, op).frames.limit == s.frames.limit
  {
    match op
    case RequestPage =>
      TakeKeepsGood(s, Lowest(s.frames.marked, s.frames.limit, 0), 1);
      TouchRangeMarks(s.frames, Lock, Lowest(s.frames.marked, s.frames.limit, 0), 1);
    case RequestPages(n) =>
      TakeKeepsGood(s, Probe(s.frames.marked, s.frames.limit, n, 0), n);
      TouchRangeMarks(s.frames, Lock, Probe(s.frames.marked, s.frames.limit, n, 0), n);
    case FreePages(run) => TouchRangeMarks(s.frames, Free, run.start, run.count);
    case Other(a, i, n) => TouchRangeMarks(s.frames, a, i, n);
  }

  predicate InRange(f: Frames) {
    f.free < U64 && f.used < U64 && f.reserved < U64
  }

  lemma {:induction false} TouchRangeInRange(f: Frames, a: Action, i: nat, n: nat)
    requires InRange(f)
    ensures InRange(TouchRange(f, a, i, n))
  {
    if n > 0 { TouchRangeInRange(f, a, i, n - 1); }
  }

  lemma StepBalances(s: State, op: Op)
    requires InRange(s.frames)
    ensures InRange(Step(s, op).frames)
    ensures Excess(Step(s, op).frames) == Excess(s.frames) && Memory(Step(s, op).frames) == Memory(s.frames)
  {
    hide Excess, Memory, InRange, TouchRange, Lowest, Probe;
    match op
    case RequestPage => RangeBalances(s.frames, Lock, Lowest(s.frames.marked, s.frames.limit, 0), 1);
    case RequestPages(n) => RangeBalances(s.frames, Lock, Probe(s.frames.marked, s.frames.limit, n, 0), n);
    case FreePages(run) => RangeBalances(s.frames, Free, run.start, run.count);
    case Other(a, i, n) => RangeBalances(s.frames, a, i, n);
  }

  lemma RangeBalances(f: Frames, a: Action, i: nat, n: nat)
    requires InRange(f)
    ensures InRange(TouchRange(f, a, i, n))
    ensures Excess(TouchRange(f, a, i, n)) == Excess(f) && Memory(TouchRange(f, a, i, n)) == Memory(f)
  {
    TouchRangeInRange(f, a, i, n);
    TouchRangeBalances(f, a, i, n);
  }

  ghost predicate IsStep(s: State, op: Op, s': State) {
    Legal(s, op) && s' == Step(s, op)
  }

  ghost predicate IsRun(states: seq<State>, ops: seq<Op>) {
    && |states| == |ops| + 1
    && Good(states[0]) && InRange(states[0].frames)
    && forall i: nat :: i < |ops| ==> IsStep(states[i], ops[i], states[i + 1])
  }

  /** Over any run: runs handed out and not yet freed are disjoint and marked;
      used plus reserved moves by 4096 for every bit set or cleared, and free
      plus used plus reserved does not move at all, modulo 2^64. */
  lemma {:induction false} EveryReachableAllocator(states: seq<State>, ops: seq<Op>, n: nat)
    requires IsRun(states, ops) && n < |states|
    ensures Good(states[n]) && InRange(states[n].frames)
    ensures Excess(states[n].frames) == Excess(states[0].frames)
    ensures Memory(states[n].frames) == Memory(states[0].frames)
  {
    if n > 0 {
      EveryReachableAllocator(states, ops, n - 1);
      assert IsStep(states[n - 1], ops[n - 1], states[n]);
      StepKeepsGood(states[n - 1], ops[n - 1]);
      StepBalances(states[n - 1], ops[n - 1]);
    }
  }

  /** Started with nothing marked or counted, used plus reserved is 4096 times the set bits. */
  lemma CountersCountBits(states: seq<State>, ops: seq<Op>, n: nat)
    requires IsRun(states, ops) && n < |states|
    requires states[0].frames.marked == {} && states[0].frames.used == 0 && states[0].frames.reserved == 0
    ensures Wrap(states[n].frames.used + states[n].frames.reserved) == Wrap(FRAME * |states[n].frames.marked|)
  {
    EveryReachableAllocator(states, ops, n);
    WrapAdds(states[n].frames.used + states[n].frames.reserved - FRAME * |states[n].frames.marked|, FRAME * |states[n].frames.marked|);
  }
}

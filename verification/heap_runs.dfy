/** Whole runs of the heap: malloc, free and expand_heap in any order
    (src/memory/heap.cpp:36-70, 111-132). heap.dfy proves each call to be one of
    these steps; realloc is none of them, one, or a Malloc and a Free. */
module HeapRuns {
  import opened HeapModel

  datatype Op = Malloc(size: nat) | Free(block: Seg) | Grow(length: nat)

  /** owned: the blocks callers hold, each with the size it was requested with. */
  datatype State = State(segs: seq<Seg>, start: nat, end: nat, owned: map<Seg, nat>)

  ghost predicate Good(s: State) {
    && WellFormed(s.segs, s.start, s.end)
    && s.owned.Keys == Live(s.segs)
    && forall b :: b in s.owned ==> s.owned[b] <= b.length
  }

  /** Callers free only what they hold. */
  predicate Legal(s: State, op: Op) {
    match op
    case Malloc(size) => size < U64
    case Free(block) => block in s.owned
    case Grow(length) => RoundPage(length) >= PAGE
  }

  lemma Held(s: State, b: Seg)
    requires Good(s) && b in s.owned
    ensures exists k: nat :: k < |s.segs| && s.segs[k] == b
  {
    assert b in Live(s.segs);
  }

  ghost function Step(s: State, op: Op): State
    requires Good(s) && Legal(s, op)
  {
    match op
    case Malloc(size) =>
      var r := RoundGrain(size);
      if r == 0 then s
      else
        AllocateKeeps(s.segs, s.start, s.end, r);
        var segs' := Allocate(s.segs, s.end, r);
        State(segs', s.start, s.end + Pages(Need(s.segs, r), r), s.owned[segs'[Chosen(s.segs, s.end, r)] := size])
    case Free(block) =>
      Held(s, block);
      var k: nat :| k < |s.segs| && s.segs[k] == block;
      State(Release(s.segs, k), s.start, s.end, s.owned - {block})
    case Grow(length) =>
      State(Expand(s.segs, s.end, length), s.start, s.end + RoundPage(length), s.owned)
  }

  lemma StepKeepsGood(s: State, op: Op)
    requires Good(s) && Legal(s, op)
    ensures Good(Step(s, op))
  {
    match op
    case Malloc(size) => MallocKeepsGood(s, size);
    case Free(block) => FreeKeepsGood(s, block);
    case Grow(length) => ExpandWellFormed(s.segs, s.start, s.end, length);
  }

  lemma MallocKeepsGood(s: State, size: nat)
    requires Good(s) && size < U64
    ensures Good(Step(s, Malloc(size)))
  {
    hide Tiles, Coalesced, Allocate, Chosen;
    Rounding(size);
    var r := RoundGrain(size);
    if r > 0 { AllocateKeeps(s.segs, s.start, s.end, r); }
  }

  lemma FreeKeepsGood(s: State, block: Seg)
    requires Good(s) && block in s.owned
    ensures Good(Step(s, Free(block)))
  {
    hide Tiles, Coalesced, Release;
    Held(s, block);
    forall k: nat | k < |s.segs| && s.segs[k] == block
      ensures WellFormed(Release(s.segs, k), s.start, s.end)
      ensures Live(Release(s.segs, k)) == Live(s.segs) - {block}
    {
      assert block in Live(s.segs);
      ReleaseWellFormed(s.segs, s.start, s.end, k);
      ReleaseLive(s.segs, s.start, s.end, k);
    }
  }

  /** What initialize_heap leaves behind. */
  ghost predicate Initial(s: State) {
    s.start + HEADER <= s.end && s.segs == [Seg(s.start, s.end - s.start - HEADER, true)] && s.owned == map[]
  }

  ghost predicate IsStep(s: State, op: Op, s': State) {
    Good(s) ==> Legal(s, op) && s' == Step(s, op)
  }

  ghost predicate IsRun(states: seq<State>, ops: seq<Op>) {
    && |states| == |ops| + 1
    && Initial(states[0])
    && forall i: nat :: i < |ops| ==> IsStep(states[i], ops[i], states[i + 1])
  }

  lemma {:induction false} RunStaysGood(states: seq<State>, ops: seq<Op>, n: nat)
    requires IsRun(states, ops) && n < |states|
    ensures Good(states[n])
  {
    if n > 0 {
      RunStaysGood(states, ops, n - 1);
      assert IsStep(states[n - 1], ops[n - 1], states[n]);
      StepKeepsGood(states[n - 1], ops[n - 1]);
    }
  }

  /** In every reachable state the headers tile the heap, no two free segments
      touch, payloads and headers add up to the heap's size, and blocks held are
      disjoint and as large as requested. Once nothing is held, one free segment
      spans the heap. */
  lemma EveryReachableHeap(states: seq<State>, ops: seq<Op>, n: nat)
    requires IsRun(states, ops) && n < |states|
    ensures var s := states[n];
      && WellFormed(s.segs, s.start, s.end)
      && Total(s.segs) == s.end - s.start
      && (forall b :: b in s.owned ==> s.owned[b] <= b.length && s.start + HEADER <= b.addr + HEADER && End(b) <= s.end)
      && (forall b, c :: b in s.owned && c in s.owned && b != c ==> End(b) <= c.addr || End(c) <= b.addr)
      && (s.owned == map[] ==> s.start + HEADER <= s.end && s.segs == [Seg(s.start, s.end - s.start - HEADER, true)])
  {
    RunStaysGood(states, ops, n);
    var s := states[n];
    TotalIsHeapSize(s.segs, s.start, s.end);
    forall b | b in s.owned ensures s.start <= b.addr && End(b) <= s.end {
      Held(s, b);
      var k: nat :| k < |s.segs| && s.segs[k] == b;
      InHeap(s.segs, s.start, s.end, k);
    }
    forall b, c | b in s.owned && c in s.owned && b != c ensures End(b) <= c.addr || End(c) <= b.addr {
      HeldApart(s, b, c);
    }
    if s.owned == map[] { NothingHeld(s); }
  }

  lemma HeldApart(s: State, b: Seg, c: Seg)
    requires Good(s) && b in s.owned && c in s.owned && b != c
    ensures End(b) <= c.addr || End(c) <= b.addr
  {
    Held(s, b);
    Held(s, c);
    var i: nat :| i < |s.segs| && s.segs[i] == b;
    var j: nat :| j < |s.segs| && s.segs[j] == c;
    if i < j { Ordered(s.segs, s.start, s.end, i, j); } else { Ordered(s.segs, s.start, s.end, j, i); }
  }

  lemma NothingHeld(s: State)
    requires Good(s) && s.owned == map[]
    ensures s.start + HEADER <= s.end && s.segs == [Seg(s.start, s.end - s.start - HEADER, true)]
  {
    forall i | 0 <= i < |s.segs| ensures s.segs[i].free {
      assert s.segs[i] !in Live(s.segs);
    }
    AllFreeIsOneSegment(s.segs, s.start, s.end);
  }
}

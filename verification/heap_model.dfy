/** The kernel heap as a sequence of segments, and what malloc, free and
    expand_heap do to it (src/memory/heap.cpp). heap.dfy proves that the code on
    headers in memory does exactly this. */
module HeapModel {
  import opened Arith


  const HEADER := 32  // sizeof(HeapSegHdr)
  const GRAIN := 16
  const PAGE := 0x1000
  const U64 := 0x1_0000_0000_0000_0000

  /** A header at addr followed by length bytes of payload. */
  datatype Seg = Seg(addr: nat, length: nat, free: bool)

  function End(s: Seg): nat {
    s.addr + HEADER + s.length
  }

  /** The segments tile start .. end exactly, in address order. */
  ghost predicate Tiles(segs: seq<Seg>, start: nat, end: nat) {
    && |segs| > 0
    && segs[0].addr == start
    && End(segs[|segs| - 1]) == end
    && forall i, j :: 0 <= i && i + 1 == j && j < |segs| ==> End(segs[i]) == segs[j].addr
  }

  /** Free segments never touch. */
  ghost predicate Coalesced(segs: seq<Seg>) {
    forall i, j :: 0 <= i && i + 1 == j && j < |segs| ==> !segs[i].free || !segs[j].free
  }

  ghost predicate WellFormed(segs: seq<Seg>, start: nat, end: nat) {
    Tiles(segs, start, end) && Coalesced(segs)
  }

  lemma {:induction false} Ordered(segs: seq<Seg>, start: nat, end: nat, i: nat, j: nat)
    requires Tiles(segs, start, end) && i < j < |segs|
    ensures End(segs[i]) <= segs[j].addr
  {
    if i + 1 < j {
      Ordered(segs, start, end, i, j - 1);
    }
  }

  lemma InHeap(segs: seq<Seg>, start: nat, end: nat, i: nat)
    requires Tiles(segs, start, end) && i < |segs|
    ensures start <= segs[i].addr && End(segs[i]) <= end
  {
    if i > 0 { Ordered(segs, start, end, 0, i); }
    if i < |segs| - 1 { Ordered(segs, start, end, i, |segs| - 1); }
  }

  /** Headers and payloads of different segments never overlap. */
  lemma SegmentsDisjoint(segs: seq<Seg>, start: nat, end: nat, i: nat, j: nat, a: nat)
    requires Tiles(segs, start, end) && i < |segs| && j < |segs|
    requires segs[i].addr <= a < End(segs[i]) && segs[j].addr <= a < End(segs[j])
    ensures i == j
  {
    if i < j { Ordered(segs, start, end, i, j); }
    if j < i { Ordered(segs, start, end, j, i); }
  }

  /** Payloads plus headers. */
  function Total(segs: seq<Seg>): nat {
    if segs == [] then 0 else Total(segs[..|segs| - 1]) + HEADER + segs[|segs| - 1].length
  }

  /** Nothing is lost: payloads and headers always add up to the heap's size. */
  lemma {:induction false} TotalIsHeapSize(segs: seq<Seg>, start: nat, end: nat)
    requires Tiles(segs, start, end)
    ensures Total(segs) == end - start
  {
    if |segs| > 1 {
      var front := segs[..|segs| - 1];
      TotalIsHeapSize(front, start, segs[|segs| - 1].addr);
    } else {
      assert segs[..0] == [];
    }
  }

  lemma NotBothFree(segs: seq<Seg>)
    requires Coalesced(segs) && |segs| > 1
    ensures !segs[0].free || !segs[1].free
  {
  }

  /** With every block freed, one free segment spans the whole heap. */
  lemma AllFreeIsOneSegment(segs: seq<Seg>, start: nat, end: nat)
    requires WellFormed(segs, start, end) && forall i :: 0 <= i < |segs| ==> segs[i].free
    ensures |segs| == 1 && segs[0].free && segs[0].addr == start && End(segs[0]) == end
  {
    if |segs| > 1 { NotBothFree(segs); }
  }

  /** The blocks that callers hold. */
  ghost function Live(segs: seq<Seg>): set<Seg> {
    set s | s in segs && !s.free
  }

  // ----- rounding -----

  /** malloc's rounding to 16 bytes, which may wrap to 0. */
  function RoundGrain(size: nat): nat {
    if size % GRAIN > 0 then (size - size % GRAIN + GRAIN) % U64 else size
  }

  function RoundPage(length: nat): nat {
    if length % PAGE != 0 then length - length % PAGE + PAGE else length
  }

  lemma Rounding(size: nat)
    requires size < U64
    ensures RoundGrain(size) == 0 <==> size == 0 || size > U64 - GRAIN
    ensures RoundGrain(size) > 0 ==> size <= RoundGrain(size) < size + GRAIN && RoundGrain(size) % GRAIN == 0
    ensures RoundPage(size) >= size && RoundPage(size) % PAGE == 0 && (size > 0 ==> RoundPage(size) >= PAGE)
  {
    var q, r := size / GRAIN, size % GRAIN;
    var up := size - r + GRAIN;
    DivModIs(up, GRAIN, q + 1, 0);
    if up < U64 { DivModIs(up, U64, 0, up); } else { assert up == U64; }
    DivModIs(size - size % PAGE + PAGE, PAGE, size / PAGE + 1, 0);
  }

  // ----- malloc -----

  predicate Fits(s: Seg, size: nat) {
    s.free && s.length >= size
  }

  /** The first segment that fits, |segs| if there is none. */
  function FirstFit(segs: seq<Seg>, size: nat): (k: nat)
    ensures k <= |segs|
    ensures k < |segs| ==> Fits(segs[k], size)
    ensures forall i :: 0 <= i < k ==> !Fits(segs[i], size)
  {
    if segs == [] then 0 else if Fits(segs[0], size) then 0 else 1 + FirstFit(segs[1..], size)
  }

  lemma FirstFitIs(segs: seq<Seg>, size: nat, k: nat)
    requires k <= |segs| && (k < |segs| ==> Fits(segs[k], size)) && forall i :: 0 <= i < k ==> !Fits(segs[i], size)
    ensures FirstFit(segs, size) == k
  {
    var f := FirstFit(segs, size);
  }

  /** Whether what remains behind size bytes can hold a header and 16 bytes. */
  predicate Splits(s: Seg, size: nat) {
    s.length >= size + HEADER + GRAIN
  }

  /** Segment k handed out for size bytes, the rest split off if worth it. */
  function Place(segs: seq<Seg>, k: nat, size: nat): seq<Seg>
    requires k < |segs|
  {
    var s := segs[k];
    if Splits(s, size)
    then segs[..k] + [Seg(s.addr, size, false), Seg(s.addr + size + HEADER, s.length - size - HEADER, true)] + segs[k + 1..]
    else segs[k := s.(free := false)]
  }

  lemma PlaceWellFormed(segs: seq<Seg>, start: nat, end: nat, k: nat, size: nat)
    requires WellFormed(segs, start, end) && k < |segs| && Fits(segs[k], size)
    ensures WellFormed(Place(segs, k, size), start, end)
  {
    var segs' := Place(segs, k, size);
    if Splits(segs[k], size) {
      assert forall i :: 0 <= i < k ==> segs'[i] == segs[i];
      assert forall i :: k + 2 <= i < |segs'| ==> segs'[i] == segs[i - 1];
    }
  }

  /** malloc hands out one new block and disturbs no other. */
  lemma PlaceLive(segs: seq<Seg>, start: nat, end: nat, k: nat, size: nat)
    requires WellFormed(segs, start, end) && k < |segs| && Fits(segs[k], size)
    ensures var b := Place(segs, k, size)[k];
      && Live(Place(segs, k, size)) == Live(segs) + {b} && b !in Live(segs)
      && b.addr == segs[k].addr && size <= b.length < size + HEADER + GRAIN
  {
    var segs' := Place(segs, k, size);
    var b := segs'[k];
    if b in segs {
      var j :| 0 <= j < |segs| && segs[j] == b;
      SegmentsDisjoint(segs, start, end, j, k, b.addr);
    }
    if Splits(segs[k], size) {
      var front, back := segs[..k], segs[k + 1..];
      assert segs == front + [segs[k]] + back;
      assert segs' == front + [b, segs'[k + 1]] + back;
      assert forall s :: s in segs <==> s in front || s == segs[k] || s in back;
      assert forall s :: s in segs' <==> s in front || s == b || s == segs'[k + 1] || s in back;
    } else {
      assert forall i :: 0 <= i < |segs| && i != k ==> segs'[i] == segs[i];
      forall s | s in Live(segs) ensures s in segs' {
        var i :| 0 <= i < |segs| && segs[i] == s;
        assert segs'[i] == s;
      }
      forall s | s in segs' && s != b ensures s in segs {
        var i :| 0 <= i < |segs'| && segs'[i] == s;
        assert segs[i] == s;
      }
      assert segs'[k] in segs';
    }
  }

  // ----- free -----

  /** combine_forward on segment k: swallow a free successor. */
  function MergeForward(segs: seq<Seg>, k: nat): seq<Seg>
    requires k < |segs|
  {
    if k + 1 < |segs| && segs[k + 1].free
    then segs[..k] + [segs[k].(length := segs[k].length + segs[k + 1].length + HEADER)] + segs[k + 2..]
    else segs
  }

  /** combine_backward on segment k: let a free predecessor swallow it. */
  function MergeBackward(segs: seq<Seg>, k: nat): seq<Seg>
    requires k < |segs|
  {
    if k > 0 && segs[k - 1].free then MergeForward(segs, k - 1) else segs
  }

  function Release(segs: seq<Seg>, k: nat): seq<Seg>
    requires k < |segs|
  {
    MergeBackward(MergeForward(segs[k := segs[k].(free := true)], k), k)
  }

  lemma MergeTiles(segs: seq<Seg>, start: nat, end: nat, k: nat)
    requires Tiles(segs, start, end) && k < |segs|
    ensures Tiles(MergeForward(segs, k), start, end)
  {
    var segs' := MergeForward(segs, k);
    if segs' != segs {
      assert forall i :: 0 <= i < k ==> segs'[i] == segs[i];
      assert forall i :: k + 1 <= i < |segs'| ==> segs'[i] == segs[i + 1];
    }
  }

  lemma ReleaseWellFormed(segs: seq<Seg>, start: nat, end: nat, k: nat)
    requires WellFormed(segs, start, end) && k < |segs|
    ensures WellFormed(Release(segs, k), start, end)
  {
    var s1 := segs[k := segs[k].(free := true)];
    var s2 := MergeForward(s1, k);
    var s3 := MergeBackward(s2, k);
    assert Tiles(s1, start, end);
    MergeTiles(s1, start, end, k);
    if k > 0 && s2[k - 1].free { MergeTiles(s2, start, end, k - 1); }
    ReleaseCoalesced(segs, k);
  }

  lemma ReleaseCoalesced(segs: seq<Seg>, k: nat)
    requires Coalesced(segs) && k < |segs|
    ensures Coalesced(Release(segs, k))
  {
    var s1 := segs[k := segs[k].(free := true)];
    var s2 := MergeForward(s1, k);
    var s3 := MergeBackward(s2, k);
    assert forall i :: 0 <= i < k ==> s2[i] == segs[i];
    assert forall i :: k < i < |s2| ==> s2[i] == if |s2| == |segs| then segs[i] else segs[i + 1];
    assert s2[k].free && (k + 1 < |s2| ==> !s2[k + 1].free);
    if k > 0 && s2[k - 1].free {
      assert forall i :: 0 <= i < k - 1 ==> s3[i] == segs[i];
      assert forall i :: k - 1 < i < |s3| ==> s3[i] == s2[i + 1];
    }
  }

  /** free takes back exactly the block it is given. */
  lemma ReleaseLive(segs: seq<Seg>, start: nat, end: nat, k: nat)
    requires WellFormed(segs, start, end) && k < |segs| && !segs[k].free
    ensures Live(Release(segs, k)) == Live(segs) - {segs[k]}
  {
    var s1 := segs[k := segs[k].(free := true)];
    var s2 := MergeForward(s1, k);
    ReleasedOne(segs, start, end, k);
    MergeLive(s1, k);
    if k > 0 && s2[k - 1].free { MergeLive(s2, k - 1); }
  }

  lemma ReleasedOne(segs: seq<Seg>, start: nat, end: nat, k: nat)
    requires Tiles(segs, start, end) && k < |segs| && !segs[k].free
    ensures Live(segs[k := segs[k].(free := true)]) == Live(segs) - {segs[k]}
  {
    var s1 := segs[k := segs[k].(free := true)];
    forall s | s in Live(segs) && s != segs[k] ensures s in s1 {
      var i :| 0 <= i < |segs| && segs[i] == s;
      assert s1[i] == s;
    }
    forall s | s in Live(s1) ensures s in segs && s != segs[k] {
      var i :| 0 <= i < |s1| && s1[i] == s;
      assert segs[i] == s;
      if s == segs[k] { SegmentsDisjoint(segs, start, end, i, k, s.addr); }
    }
  }

  lemma MergeLive(segs: seq<Seg>, k: nat)
    requires k < |segs| && segs[k].free
    ensures Live(MergeForward(segs, k)) == Live(segs)
  {
    var segs' := MergeForward(segs, k);
    if segs' != segs {
      assert segs == segs[..k] + [segs[k], segs[k + 1]] + segs[k + 2..];
      assert forall s :: s in segs <==> s in segs[..k] || s == segs[k] || s == segs[k + 1] || s in segs[k + 2..];
      assert forall s :: s in segs' <==> s in segs[..k] || s == segs'[k] || s in segs[k + 2..];
    }
  }

  /** free undoes malloc: the segments are as they were before. */
  lemma FreeUndoesMalloc(segs: seq<Seg>, start: nat, end: nat, k: nat, size: nat)
    requires WellFormed(segs, start, end) && k < |segs| && Fits(segs[k], size)
    ensures Release(Place(segs, k, size), k) == segs
  {
    var s := segs[k];
    var p := Place(segs, k, size);
    var p1 := p[k := p[k].(free := true)];
    var p2 := MergeForward(p1, k);
    assert k > 0 ==> !segs[k - 1].free;
    if Splits(s, size) {
      assert p1[..k] == segs[..k] && p1[k + 2..] == segs[k + 1..];
      assert p1[k].length + p1[k + 1].length + HEADER == s.length;
      assert p2 == segs[..k] + [s] + segs[k + 1..] == segs;
    } else {
      assert p1 == segs;
      assert k + 1 < |segs| ==> !segs[k + 1].free;
    }
  }

  // ----- expand_heap -----

  /** The new pages become a free segment, merged into a free last one. */
  function Expand(segs: seq<Seg>, end: nat, length: nat): seq<Seg>
    requires |segs| > 0 && RoundPage(length) >= HEADER
  {
    MergeBackward(segs + [Seg(end, RoundPage(length) - HEADER, true)], |segs|)
  }

  lemma ExpandWellFormed(segs: seq<Seg>, start: nat, end: nat, length: nat)
    requires WellFormed(segs, start, end) && RoundPage(length) >= HEADER
    ensures WellFormed(Expand(segs, end, length), start, end + RoundPage(length))
    ensures Live(Expand(segs, end, length)) == Live(segs)
  {
    var s1 := segs + [Seg(end, RoundPage(length) - HEADER, true)];
    assert Tiles(s1, start, end + RoundPage(length));
    assert Live(s1) == Live(segs) by {
      assert forall s :: s in s1 <==> s in segs || s == s1[|segs|];
    }
    if segs[|segs| - 1].free {
      MergeTiles(s1, start, end + RoundPage(length), |segs| - 1);
      MergeLive(s1, |segs| - 1);
      var s2 := MergeForward(s1, |segs| - 1);
      assert forall i :: 0 <= i < |segs| - 1 ==> s2[i] == segs[i];
    }
  }

  /** After an expansion that was needed the last segment is the only candidate,
      and one more expansion makes it large enough: malloc expands once, and a
      second time exactly when the heap ended in a live block and the request lies
      within a header of the page multiple above it. */
  lemma ExpandMakesRoom(segs: seq<Seg>, end: nat, size: nat)
    requires |segs| > 0 && size > 0 && FirstFit(segs, size) == |segs|
    ensures RoundPage(size) >= size && RoundPage(size) >= PAGE
    ensures var s1 := Expand(segs, end, size); var last := s1[|s1| - 1];
      && |s1| > 0 && last.free
      && (FirstFit(s1, size) < |s1| <==> segs[|segs| - 1].free || RoundPage(size) - HEADER >= size)
      && last.length + RoundPage(size) >= size
  {
    RoundPageFits(size);
    var s1 := Expand(segs, end, size);
    var k := |s1| - 1;
    assert forall i :: 0 <= i < k ==> s1[i] == segs[i];
    FirstFitIs(s1, size, if Fits(s1[k], size) then k else |s1|);
  }

  lemma RoundPageFits(size: nat)
    requires size > 0
    ensures RoundPage(size) >= size && RoundPage(size) >= PAGE
  {
  }

  /** How many expansions a request of size bytes takes. */
  function Need(segs: seq<Seg>, size: nat): (n: nat)
    ensures n <= 2
    ensures n == 0 <==> FirstFit(segs, size) < |segs|
  {
    if FirstFit(segs, size) < |segs| then 0
    else if (|segs| > 0 && segs[|segs| - 1].free) || RoundPage(size) >= size + HEADER then 1
    else 2
  }

  lemma ExpansionHelps(segs: seq<Seg>, end: nat, size: nat)
    requires |segs| > 0 && size > 0 && FirstFit(segs, size) == |segs|
    ensures RoundPage(size) >= PAGE && Need(Expand(segs, end, size), size) == Need(segs, size) - 1
  {
    ExpandMakesRoom(segs, end, size);
    var s1 := Expand(segs, end, size);
    if segs[|segs| - 1].free { assert s1[|s1| - 1].length >= RoundPage(size); }
  }

  /** The segments once expansions have made room for size bytes. */
  ghost function Roomy(segs: seq<Seg>, end: nat, size: nat): (r: seq<Seg>)
    requires |segs| > 0 && size > 0
    ensures FirstFit(r, size) < |r|
    decreases Need(segs, size)
  {
    if Need(segs, size) == 0 then segs
    else
      ExpansionHelps(segs, end, size);
      ExpandNonEmpty(segs, end, size);
      Roomy(Expand(segs, end, size), end + RoundPage(size), size)
  }

  lemma ExpandNonEmpty(segs: seq<Seg>, end: nat, size: nat)
    requires |segs| > 0 && RoundPage(size) >= PAGE
    ensures |Expand(segs, end, size)| > 0
  {
  }

  lemma {:induction false} RoomyIsRoomy(segs: seq<Seg>, start: nat, end: nat, size: nat)
    requires WellFormed(segs, start, end) && size > 0
    ensures WellFormed(Roomy(segs, end, size), start, end + Pages(Need(segs, size), size))
    ensures Live(Roomy(segs, end, size)) == Live(segs)
    decreases Need(segs, size)
  {
    if Need(segs, size) > 0 {
      ExpansionHelps(segs, end, size);
      ExpandWellFormed(segs, start, end, size);
      ExpandNonEmpty(segs, end, size);
      RoomyIsRoomy(Expand(segs, end, size), start, end + RoundPage(size), size);
      assert Pages(Need(segs, size), size) == RoundPage(size) + Pages(Need(segs, size) - 1, size);
    }
  }

  function Pages(n: nat, size: nat): nat {
    if n == 0 then 0 else RoundPage(size) + Pages(n - 1, size)
  }

  /** malloc as a whole, for a rounded size: room is made, the lowest fitting
      segment is handed out, every block held before is still held. */
  ghost function Allocate(segs: seq<Seg>, end: nat, size: nat): seq<Seg>
    requires |segs| > 0 && size > 0
  {
    Place(Roomy(segs, end, size), Chosen(segs, end, size), size)
  }

  ghost function Chosen(segs: seq<Seg>, end: nat, size: nat): (k: nat)
    requires |segs| > 0 && size > 0
  {
    FirstFit(Roomy(segs, end, size), size)
  }

  lemma AllocateUnfolds(segs: seq<Seg>, end: nat, size: nat)
    requires |segs| > 0 && size > 0
    ensures Need(segs, size) == 0 ==> Chosen(segs, end, size) == FirstFit(segs, size) < |segs|
    ensures Need(segs, size) == 0 ==> Allocate(segs, end, size) == Place(segs, FirstFit(segs, size), size)
    ensures RoundPage(size) >= PAGE && |Expand(segs, end, size)| > 0
    ensures var s1, end1 := Expand(segs, end, size), end + RoundPage(size);
      Need(segs, size) > 0 ==>
        && Need(segs, size) == Need(s1, size) + 1
        && Pages(Need(segs, size), size) == RoundPage(size) + Pages(Need(s1, size), size)
        && Allocate(segs, end, size) == Allocate(s1, end1, size) && Chosen(segs, end, size) == Chosen(s1, end1, size)
  {
    RoundPageFits(size);
    ExpandNonEmpty(segs, end, size);
    if Need(segs, size) > 0 { ExpansionHelps(segs, end, size); }
  }

  /** One block of at least size bytes becomes live, the others stay. */
  lemma AllocateKeeps(segs: seq<Seg>, start: nat, end: nat, size: nat)
    requires WellFormed(segs, start, end) && size > 0
    ensures WellFormed(Allocate(segs, end, size), start, end + Pages(Need(segs, size), size))
    ensures var k := Chosen(segs, end, size);
      && k < |Allocate(segs, end, size)|
      && var b := Allocate(segs, end, size)[k];
         && Live(Allocate(segs, end, size)) == Live(segs) + {b} && b !in Live(segs)
         && size <= b.length < size + HEADER + GRAIN
  {
    RoomyIsRoomy(segs, start, end, size);
    var r, k := Roomy(segs, end, size), Chosen(segs, end, size);
    PlaceWellFormed(r, start, end + Pages(Need(segs, size), size), k, size);
    PlaceLive(r, start, end + Pages(Need(segs, size), size), k, size);
  }
}

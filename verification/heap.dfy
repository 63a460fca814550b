/** The kernel heap in memory: headers that lie in front of the payloads they
    manage, linked both ways (src/memory/heap.cpp). Every operation is proved
    to do to the headers what heap_model.dfy does to the segments, and to write
    into no payload that a caller holds.

    Memory is a map from the mapped addresses to cells. A header occupies HEADER
    addresses; its fields are kept in the cell at its own address. When the last
    segment is split the code stores through a null next pointer, outside the
    heap; here that store is guarded. */
module Heap {
  import opened HeapModel
  import opened HeapLinks

  const I64 := 0x8000_0000_0000_0000

  /** The value of a 64-bit difference stored in an int64_t. */
  function AsInt64(x: int): int {
    if x % U64 >= I64 then x % U64 - U64 else x % U64
  }

  lemma SplitDecision(s: Seg, size: nat)
    requires size <= s.length < I64
    ensures AsInt64(s.length - size - HEADER) >= GRAIN <==> Splits(s, size)
    ensures Splits(s, size) ==> AsInt64(s.length - size - HEADER) == s.length - size - HEADER
  {
  }

  class KernelHeap {
    var mem: Memory
    var heapStart: nat
    var heapEnd: nat
    var lastHdr: nat
    const ram: nat -> Cell  // what freshly mapped pages happen to contain
    ghost var segs: seq<Seg>

    /** Headers tile the heap exactly, last inverts next, last_hdr is the tail. */
    ghost predicate Links()
      reads this
    {
      heapEnd < U64 && heapEnd - heapStart < I64 && Linked(mem, heapStart, heapEnd, lastHdr, segs)
    }

    ghost predicate Valid()
      reads this
    {
      Links() && Coalesced(segs)
    }

    lemma HeaderAt(k: nat)
      requires Links() && k < |segs|
      ensures segs[k].addr in mem && mem[segs[k].addr] == HeaderOf(segs, k)
      ensures 0 < heapStart <= segs[k].addr && End(segs[k]) <= heapEnd
      ensures mem[segs[k].addr].next != NULL <==> k + 1 < |segs|
      ensures mem[segs[k].addr].last != NULL <==> k > 0
    {
      RepresentsAt(mem, segs, k);
      InHeap(segs, heapStart, heapEnd, k);
      if k + 1 < |segs| { InHeap(segs, heapStart, heapEnd, k + 1); }
      if k > 0 { InHeap(segs, heapStart, heapEnd, k - 1); }
    }

    /** Only the last segment's header is last_hdr. */
    lemma LastIs(k: nat)
      requires Links() && k < |segs|
      ensures lastHdr == segs[k].addr <==> k + 1 == |segs|
    {
      if k + 1 < |segs| { Ordered(segs, heapStart, heapEnd, k, |segs| - 1); }
    }

    /** initialize_heap: one free segment over pageCount fresh pages. */
    constructor (heapAddress: nat, pageCount: nat, contents: nat -> Cell)
      requires heapAddress > 0 && pageCount > 0
      requires heapAddress + pageCount * PAGE < U64 && pageCount * PAGE < I64
      ensures Valid() && heapStart == heapAddress && heapEnd == heapAddress + pageCount * PAGE
      ensures segs == [Seg(heapAddress, pageCount * PAGE - HEADER, true)]
    {
      ram := contents;
      mem := map[];
      heapStart := heapAddress;
      heapEnd := heapAddress;
      lastHdr := heapAddress;
      segs := [];
      new;
      MapPages(pageCount);
      var heapLength := pageCount * PAGE;
      assert heapAddress in mem;
      mem := Written(mem, heapAddress, Header(heapLength - HEADER, NULL, NULL, true));
      segs := [Seg(heapAddress, heapLength - HEADER, true)];
      assert InPlace(mem, segs, 0);
    }

    /** HeapSegHdr::split on segment k. */
    method Split(h: nat, length: nat, ghost k: nat)
      requires Links() && k < |segs| && segs[k].addr == h && segs[k].free && GRAIN <= length <= segs[k].length
      modifies `mem, `lastHdr, `segs
      ensures Links()
      ensures segs == if Splits(old(segs)[k], length) then SplitAt(old(segs), k, length) else old(segs)
      ensures PayloadsKept(Live(old(segs)), old(mem), mem)
    {
      hide Linked, PayloadsKept, Live, SplitAt, AsInt64;
      KeptRefl(Live(segs), mem);
      HeaderAt(k);
      LastIs(k);
      var hdr := mem[h];
      SplitDecision(segs[k], length);
      var splitSegLength := AsInt64(hdr.length - length - HEADER);
      if splitSegLength < GRAIN { return; }
      var rest := h + length + HEADER;
      SplitReady(mem, heapStart, heapEnd, lastHdr, segs, k, length);
      if hdr.next != NULL {
        mem := SetLast(mem, hdr.next, rest);
      }
      mem := Written(mem, rest, Header(splitSegLength, hdr.next, h, hdr.free));
      mem := SetNext(mem, h, rest);
      mem := SetLength(mem, h, length);
      if lastHdr == h { lastHdr := rest; }
      SplitDone(old(mem), heapStart, heapEnd, old(lastHdr), lastHdr, segs, k, length);
      segs := SplitAt(segs, k, length);
    }

    /** HeapSegHdr::combine_forward on segment k. */
    method CombineForward(h: nat, ghost k: nat)
      requires Links() && k < |segs| && segs[k].addr == h && segs[k].free
      modifies `mem, `lastHdr, `segs
      ensures Links() && segs == MergeForward(old(segs), k)
      ensures PayloadsKept(Live(old(segs)), old(mem), mem)
    {
      hide Linked, PayloadsKept, Live;
      KeptRefl(Live(segs), mem);
      HeaderAt(k);
      if mem[h].next == NULL { return; }
      HeaderAt(k + 1);
      var next := mem[mem[h].next];
      if !next.free { return; }
      LastIs(k + 1);
      MergeReady(mem, heapStart, heapEnd, lastHdr, segs, k);
      if mem[h].next == lastHdr { lastHdr := h; }
      if next.next != NULL {
        mem := SetLast(mem, next.next, h);
      }
      mem := SetLength(mem, h, mem[h].length + next.length + HEADER);
      mem := SetNext(mem, h, next.next);
      MergeDone(old(mem), heapStart, heapEnd, old(lastHdr), lastHdr, segs, k);
      segs := MergeForward(segs, k);
    }

    /** HeapSegHdr::combine_backward on segment k. */
    method CombineBackward(h: nat, ghost k: nat)
      requires Links() && k < |segs| && segs[k].addr == h
      modifies `mem, `lastHdr, `segs
      ensures Links() && segs == MergeBackward(old(segs), k)
      ensures PayloadsKept(Live(old(segs)), old(mem), mem)
    {
      hide Linked, PayloadsKept, Live, InPlace, MergeForward;
      KeptRefl(Live(segs), mem);
      HeaderAt(k);
      var last := mem[h].last;
      if last != NULL {
        HeaderAt(k - 1);
        if mem[last].free { CombineForward(last, k - 1); }
      }
    }

    /** Gives back the block at address: it becomes free and merges with its
        free neighbours; every other live block keeps its contents. */
    method Free(address: nat, ghost k: nat)
      requires Valid() && k < |segs| && !segs[k].free && address == segs[k].addr + HEADER
      modifies `mem, `lastHdr, `segs
      ensures Valid() && segs == Release(old(segs), k)
      ensures Live(segs) == Live(old(segs)) - {old(segs)[k]}
      ensures PayloadsKept(Live(segs), old(mem), mem)
    {
      hide Linked, PayloadsKept, Live, MergeForward, MergeBackward, Coalesced;
      var h := address - HEADER;
      FlagDone(mem, heapStart, heapEnd, lastHdr, segs, k, true);
      FreeLive(segs, heapStart, heapEnd, k);
      ghost var segs0 := segs;
      mem := SetFree(mem, h, true);
      segs := Flag(segs, k, true);
      ghost var mem1 := mem;
      assert segs[k].addr == h;
      CombineForward(h, k);
      ghost var mem2 := mem;
      MergeKeeps(Flag(segs0, k, true), k);
      CombineBackward(h, k);
      ghost var live := Live(segs0) - {segs0[k]};
      PayloadsKeptTransitive(live, Live(Flag(segs0, k, true)), old(mem), mem1, mem2);
      PayloadsKeptTransitive(live, Live(MergeForward(Flag(segs0, k, true), k)), old(mem), mem2, mem);
    }

    /** Grows the heap by whole pages. */
    method ExpandHeap(length: nat)
      requires Valid() && RoundPage(length) >= PAGE
      requires heapEnd + RoundPage(length) < U64 && heapEnd - heapStart + RoundPage(length) < I64
      modifies `mem, `lastHdr, `segs, `heapEnd
      ensures Valid() && heapEnd == old(heapEnd) + RoundPage(length)
      ensures segs == Expand(old(segs), old(heapEnd), length)
      ensures Live(segs) == Live(old(segs))
      ensures PayloadsKept(Live(old(segs)), old(mem), mem)
    {
      hide Linked, PayloadsKept, Live, MergeForward, MergeBackward, Coalesced;
      var len := length;
      if len % PAGE != 0 {
        len := len - len % PAGE;
        len := len + PAGE;
      }
      ghost var segs0 := segs;
      var newSegment := heapEnd;
      LinkedTiles(mem, heapStart, heapEnd, lastHdr, segs);
      MapPages(len / PAGE);
      AppendDone(old(mem), mem, heapStart, newSegment, lastHdr, segs, len);
      mem := Written(mem, newSegment, Header(len - HEADER, NULL, lastHdr, true));
      mem := SetNext(mem, lastHdr, newSegment);
      lastHdr := newSegment;
      segs := Appended(segs, newSegment, len);
      ghost var mem1 := mem;
      CombineBackward(newSegment, |segs| - 1);
      ExpandLive(segs0, heapStart, newSegment, length);
      PayloadsKeptTransitive(Live(segs0), Live(Appended(segs0, newSegment, len)), old(mem), mem1, mem);
    }

    /** The search loop of malloc: the lowest-addressed segment that fits. */
    method Search(size: nat) returns (h: nat, ghost k: nat)
      requires Valid()
      ensures k == FirstFit(segs, size)
      ensures h == if FirstFit(segs, size) < |segs| then segs[FirstFit(segs, size)].addr else NULL
      ensures h != NULL <==> k < |segs|
    {
      hide Linked, Coalesced, FirstFit;
      LinkedTiles(mem, heapStart, heapEnd, lastHdr, segs);
      h, k := heapStart, 0;
      while true
        invariant k < |segs| && h == segs[k].addr
        invariant forall i :: 0 <= i < k ==> !Fits(segs[i], size)
        decreases |segs| - k
      {
        HeaderAt(k);
        if mem[h].free && mem[h].length >= size { break; }
        if mem[h].next == NULL {
          FirstFitIs(segs, size, |segs|);
          return NULL, |segs|;
        }
        h, k := mem[h].next, k + 1;
      }
      FirstFitIs(segs, size, k);
    }

    /** The block found: cut to size if it is larger, and taken. */
    method HandOut(h: nat, size: nat, ghost k: nat)
      requires Valid() && k < |segs| && segs[k].addr == h && Fits(segs[k], size) && size >= GRAIN
      modifies `mem, `lastHdr, `segs
      ensures Valid() && segs == Place(old(segs), k, size)
      ensures PayloadsKept(Live(old(segs)), old(mem), mem)
    {
      hide Linked, PayloadsKept, Live, SplitAt, Place, Coalesced;
      HeaderAt(k);
      KeptRefl(Live(segs), mem);
      PlaceIs(segs, k, size);
      LinkedTiles(mem, heapStart, heapEnd, lastHdr, segs);
      PlaceWellFormed(segs, heapStart, heapEnd, k, size);
      ghost var segs0 := segs;
      if mem[h].length > size { Split(h, size, k); }
      FlagDone(mem, heapStart, heapEnd, lastHdr, segs, k, false);
      PayloadsKeptTransitive(Live(segs0), Live(segs), old(mem), mem, SetFree(mem, h, false));
      mem := SetFree(mem, h, false);
      segs := Flag(segs, k, false);
    }

    /** Hands out a block of at least size bytes, growing the heap at most twice;
        NULL for size 0 and for a size whose rounding wraps. */
    method Malloc(size: nat) returns (p: nat, ghost k: nat)
      requires Valid() && size < U64
      requires RoundGrain(size) > 0 ==> Affordable(RoundGrain(size))
      modifies `mem, `lastHdr, `segs, `heapEnd
      ensures Valid()
      ensures RoundGrain(size) == 0 ==> p == NULL && mem == old(mem) && segs == old(segs) && heapEnd == old(heapEnd)
      ensures RoundGrain(size) > 0 ==> Served(old(segs), old(heapEnd), RoundGrain(size), segs, heapEnd, p, k)
      ensures PayloadsKept(Live(old(segs)), old(mem), mem)
      decreases if RoundGrain(size) == 0 then 0 else Need(segs, RoundGrain(size))
    {
      hide FirstFit;
      hide Fits;
      hide Linked, PayloadsKept, Live, Coalesced, Place, Expand, Allocate, Chosen, Need, RoundPage;
      KeptRefl(Live(segs), mem);
      Rounding(size);
      k := 0;
      var size' := size;
      if size' % GRAIN > 0 {
        size' := size' - size' % GRAIN;
        size' := (size' + GRAIN) % U64;
      }
      if size' == 0 { return NULL, 0; }
      LinkedTiles(mem, heapStart, heapEnd, lastHdr, segs);
      AllocateUnfolds(segs, heapEnd, size');
      var h: nat;
      h, k := Search(size');
      if h != NULL {
        HeaderAt(k);
        PlaceAt(segs, k, size');
        HandOut(h, size', k);
        return h + HEADER, k;
      }
      ghost var segs0, mem0, end0 := segs, mem, heapEnd;
      ExpandHeap(size');
      ghost var mem1 := mem;
      p, k := Malloc(size');
      PayloadsKeptTransitive(Live(segs0), Live(Expand(segs0, end0, size')), mem0, mem1, mem);
    }

    /** There is address space for the expansions that size bytes need. */
    ghost predicate Affordable(size: nat)
      reads this
    {
      && heapEnd + Pages(Need(segs, size), size) < U64
      && heapEnd - heapStart + Pages(Need(segs, size), size) < I64
    }

    /** memcpy into the payload of block k from addresses outside it. */
    method Memcpy(dst: nat, src: nat, count: nat, ghost k: nat)
      requires Links() && k < |segs| && dst == segs[k].addr + HEADER && count <= segs[k].length
      requires heapStart <= src && src + count <= heapEnd && (src + count <= segs[k].addr || End(segs[k]) <= src)
      modifies `mem
      ensures Links()
      ensures Copied(old(mem), mem, src, dst, count)
      ensures PayloadsKept(Live(segs) - {segs[k]}, old(mem), mem)
    {
      hide Linked, PayloadsKept, Live, Copied;
      ghost var others := Live(segs) - {segs[k]};
      CopiedNone(mem, src, dst);
      KeptRefl(others, mem);
      HeaderAt(k);
      LinkedTiles(mem, heapStart, heapEnd, lastHdr, segs);
      for n := 0 to count
        invariant Links()
        invariant PayloadsKept(others, old(mem), mem)
        invariant forall a :: a in old(mem) <==> a in mem
        invariant forall a :: a in mem && !(dst <= a < dst + n) ==> mem[a] == old(mem)[a]
        invariant Copied(old(mem), mem, src, dst, n)
      {
        ghost var before := mem;
        assert src + n in mem;
        PayloadStore(mem, heapStart, heapEnd, lastHdr, segs, k, dst + n, mem[src + n]);
        mem := mem[dst + n := mem[src + n]];
        CopiedOne(old(mem), before, mem, src, dst, n);
        PayloadsKeptTransitive(others, others, old(mem), before, mem);
      }
    }

    /** realloc of block k (of nothing when ptr is NULL). */
    method Realloc(ptr: nat, oldSize: nat, size: nat, ghost k: nat) returns (p: nat, ghost k': nat)
      requires Valid() && size < U64
      requires size == 0 ==> ptr != NULL
      requires ptr != NULL ==> k < |segs| && !segs[k].free && ptr == segs[k].addr + HEADER && oldSize <= segs[k].length
      requires RoundGrain(size) > 0 ==> Affordable(RoundGrain(size))
      modifies `mem, `lastHdr, `segs, `heapEnd
      ensures Valid()
      ensures size == 0 ==> p == NULL && segs == Release(old(segs), k) && Live(segs) == Live(old(segs)) - {old(segs)[k]}
      ensures ptr != NULL && 0 < size <= oldSize ==> p == ptr && mem == old(mem) && segs == old(segs) && k' == k
      ensures RoundGrain(size) == 0 < size && (ptr == NULL || size > oldSize) ==> p == NULL && segs == old(segs) && mem == old(mem)
      ensures RoundGrain(size) > 0 && ptr == NULL ==> Served(old(segs), old(heapEnd), RoundGrain(size), segs, heapEnd, p, k')
      ensures RoundGrain(size) > 0 && ptr != NULL && size > oldSize ==>
                Moved(Live(old(segs)), old(segs)[k], size, segs, p, k') && Copied(old(mem), mem, ptr, p, oldSize)
      ensures ptr == NULL ==> PayloadsKept(Live(old(segs)), old(mem), mem)
      ensures ptr != NULL ==> PayloadsKept(Live(old(segs)) - {old(segs)[k]}, old(mem), mem)
    {
      hide Linked, PayloadsKept, Live, Coalesced, Release, Served, Moved, Copied;
      KeptRefl(Live(segs), mem);
      Rounding(size);
      k' := k;
      if size == 0 {
        Free(ptr, k);
        p := NULL;
      } else if ptr == NULL {
        p, k' := Malloc(size);
      } else if size <= oldSize {
        KeptRefl(Live(segs) - {segs[k]}, mem);
        p := ptr;
      } else {
        p, k' := Move(ptr, oldSize, size, k);
      }
    }

    /** The last branch of realloc: a new block, the bytes copied, the old block freed. */
    method Move(ptr: nat, oldSize: nat, size: nat, ghost k: nat) returns (p: nat, ghost k': nat)
      requires Valid() && oldSize < size < U64
      requires k < |segs| && !segs[k].free && ptr == segs[k].addr + HEADER && oldSize <= segs[k].length
      requires RoundGrain(size) > 0 ==> Affordable(RoundGrain(size))
      modifies `mem, `lastHdr, `segs, `heapEnd
      ensures Valid()
      ensures RoundGrain(size) == 0 ==> p == NULL && segs == old(segs) && mem == old(mem)
      ensures RoundGrain(size) > 0 ==>
                Moved(Live(old(segs)), old(segs)[k], size, segs, p, k') && Copied(old(mem), mem, ptr, p, oldSize)
      ensures PayloadsKept(Live(old(segs)) - {old(segs)[k]}, old(mem), mem)
    {
      hide Linked, PayloadsKept, Live, Coalesced, Release, Served, Moved, Copied;
      Rounding(size);
      ghost var segs0, mem0, b := segs, mem, segs[k];
      ghost var others := Live(segs0) - {b};
      PayloadMapped(mem, heapStart, heapEnd, lastHdr, segs, k);
      p, k' := Malloc(size);
      if RoundGrain(size) > 0 { ServedAt(segs0, old(heapEnd), RoundGrain(size), segs, heapEnd, p, k'); }
      KeptFewer(Live(segs0), others, mem0, mem);
      if p != NULL {
        ghost var mem1, segs1, kn := mem, segs, k';
        ghost var kb := Both(segs0, heapStart, old(heapEnd), RoundGrain(size), segs1, heapEnd, p, kn, k);
        ghost var nb := segs[kn];
        LinkedTiles(mem, heapStart, heapEnd, lastHdr, segs);
        CopyRange(segs1, heapStart, heapEnd, kb, kn);
        Memcpy(p, ptr, oldSize, kn);
        ghost var mem2 := mem;
        Free(ptr, kb);
        k' := MovedIs(Live(segs0), b, nb, RoundGrain(size), size, segs1, segs, p);
        MoveKeeps(segs0, segs1, segs, b, nb, mem0, mem1, mem2, mem, ptr, p, oldSize);
      }
    }

    /** The mapping loop of initialize_heap and expand_heap. */
    method MapPages(count: nat)
      requires heapStart <= heapEnd && Mapped(mem, heapStart, heapEnd)
      modifies `mem, `heapEnd
      ensures heapEnd == old(heapEnd) + count * PAGE && Mapped(mem, heapStart, heapEnd)
      ensures forall a :: a in old(mem) ==> a in mem && mem[a] == old(mem)[a]
    {
      for i := 0 to count
        invariant heapEnd == old(heapEnd) + i * PAGE && Mapped(mem, heapStart, heapEnd)
        invariant forall a :: a in old(mem) ==> a in mem && mem[a] == old(mem)[a]
      {
        mem := mem + (map x: nat | heapEnd <= x < heapEnd + PAGE :: ram(x));
        heapEnd := heapEnd + PAGE;
      }
    }
  }

  lemma KeptRefl(live: set<Seg>, mem: Memory)
    ensures PayloadsKept(live, mem, mem)
  {
  }

  lemma KeptFewer(live: set<Seg>, live': set<Seg>, mem: Memory, mem': Memory)
    requires PayloadsKept(live, mem, mem') && live' <= live
    ensures PayloadsKept(live', mem, mem')
  {
  }

  lemma LinkedTiles(mem: Memory, start: nat, end: nat, last: nat, segs: seq<Seg>)
    requires Linked(mem, start, end, last, segs)
    ensures Tiles(segs, start, end) && start > 0 && Mapped(mem, start, end) && start <= end
  {
    InHeap(segs, start, end, 0);
  }

  lemma PayloadMapped(mem: Memory, start: nat, end: nat, last: nat, segs: seq<Seg>, k: nat)
    requires Linked(mem, start, end, last, segs) && k < |segs|
    ensures forall a :: InPayload(segs[k], a) ==> a in mem
    ensures Tiles(segs, start, end)
  {
    InHeap(segs, start, end, k);
  }

  lemma FlagDone(mem: Memory, start: nat, end: nat, last: nat, segs: seq<Seg>, k: nat, free: bool)
    requires Linked(mem, start, end, last, segs) && k < |segs|
    ensures segs[k].addr in mem && mem[segs[k].addr].Header?
    ensures Linked(SetFree(mem, segs[k].addr, free), start, end, last, Flag(segs, k, free))
    ensures PayloadsKept(Live(segs), mem, SetFree(mem, segs[k].addr, free))
    ensures PayloadsKept(Live(segs) - {segs[k]}, mem, SetFree(mem, segs[k].addr, free))
    ensures Tiles(segs, start, end)
  {
    hide PayloadsKept, OnlyHeaders;
    FlagLinked(mem, start, end, last, segs, k, free);
    HeadersMissPayloads(segs, start, end, mem, SetFree(mem, segs[k].addr, free));
    KeptFewer(Live(segs), Live(segs) - {segs[k]}, mem, SetFree(mem, segs[k].addr, free));
  }

  lemma FreeLive(segs: seq<Seg>, start: nat, end: nat, k: nat)
    requires WellFormed(segs, start, end) && k < |segs| && !segs[k].free
    ensures WellFormed(Release(segs, k), start, end)
    ensures Live(Release(segs, k)) == Live(segs) - {segs[k]}
    ensures Live(Flag(segs, k, true)) == Live(segs) - {segs[k]}
    ensures Live(MergeForward(Flag(segs, k, true), k)) == Live(segs) - {segs[k]}
  {
    ReleaseWellFormed(segs, start, end, k);
    ReleaseLive(segs, start, end, k);
    ReleasedOne(segs, start, end, k);
    MergeLive(Flag(segs, k, true), k);
  }

  /** A store into the payload of block k disturbs no header and no other block. */
  lemma PayloadStore(mem: Memory, start: nat, end: nat, last: nat, segs: seq<Seg>, k: nat, a: nat, c: Cell)
    requires Linked(mem, start, end, last, segs) && k < |segs| && InPayload(segs[k], a)
    ensures a in mem && Linked(mem[a := c], start, end, last, segs)
    ensures PayloadsKept(Live(segs) - {segs[k]}, mem, mem[a := c])
  {
    hide HeaderOf;
    TilesAscend(segs, start, end);
    var mem' := mem[a := c];
    forall i: nat | i < |segs| ensures InPlace(mem', segs, i) {
      RepresentsAt(mem, segs, i);
      HeadersApart(segs, i, k);
    }
    forall s | s in Live(segs) - {segs[k]} ensures !InPayload(s, a) {
      var j: nat :| j < |segs| && segs[j] == s;
      if InPayload(s, a) { SegmentsDisjoint(segs, start, end, j, k, a); }
    }
  }

  /** Block old was exchanged for block k' of at least size bytes at p. */
  ghost predicate Moved(live: set<Seg>, old_: Seg, size: nat, segs: seq<Seg>, p: nat, k': nat) {
    && k' < |segs| && p == segs[k'].addr + HEADER && size <= segs[k'].length
    && segs[k'] !in live && Live(segs) == live - {old_} + {segs[k']}
  }

  ghost predicate CopiedAt(mem: Memory, mem': Memory, src: nat, dst: nat, i: nat) {
    src + i in mem && dst + i in mem' && mem'[dst + i] == mem[src + i]
  }

  ghost predicate Copied(mem: Memory, mem': Memory, src: nat, dst: nat, count: nat) {
    forall i: nat :: i < count ==> CopiedAt(mem, mem', src, dst, i)
  }

  lemma CopiedNone(mem: Memory, src: nat, dst: nat)
    ensures Copied(mem, mem, src, dst, 0)
  {
  }

  lemma CopiedOne(mem: Memory, before: Memory, mem': Memory, src: nat, dst: nat, n: nat)
    requires Copied(mem, before, src, dst, n) && src + n in mem
    requires mem' == before[dst + n := mem[src + n]]
    ensures Copied(mem, mem', src, dst, n + 1)
  {
    forall i: nat | i < n ensures CopiedAt(mem, mem', src, dst, i) {
      assert CopiedAt(mem, before, src, dst, i);
    }
  }

  /** malloc's result for a rounded size, in terms of the segments before. */
  ghost predicate Served(segs: seq<Seg>, end: nat, size: nat, segs': seq<Seg>, end': nat, p: nat, k: nat)
  {
    && |segs| > 0 && size > 0
    && end' == end + Pages(Need(segs, size), size)
    && segs' == Allocate(segs, end, size)
    && k == Chosen(segs, end, size)
    && k < |segs'| && p == segs'[k].addr + HEADER
  }

  /** What a caller sees of it: a new block of at least size bytes, the others as
      they were. */
  lemma ServedIsFresh(segs: seq<Seg>, start: nat, end: nat, size: nat, segs': seq<Seg>, end': nat, p: nat, k: nat)
    requires WellFormed(segs, start, end) && Served(segs, end, size, segs', end', p, k)
    ensures segs'[k] !in Live(segs) && Live(segs') == Live(segs) + {segs'[k]}
    ensures !segs'[k].free && size <= segs'[k].length < size + HEADER + GRAIN
  {
    AllocateKeeps(segs, start, end, size);
  }

  lemma ServedAt(segs: seq<Seg>, end: nat, size: nat, segs': seq<Seg>, end': nat, p: nat, k: nat)
    requires Served(segs, end, size, segs', end', p, k)
    ensures p != NULL
  {
  }

  lemma Both(segs: seq<Seg>, start: nat, end: nat, size: nat, segs': seq<Seg>, end': nat, p: nat, kn: nat, k: nat)
    returns (kb: nat)
    requires WellFormed(segs, start, end) && Served(segs, end, size, segs', end', p, kn) && k < |segs| && !segs[k].free
    ensures kb < |segs'| && kb != kn && segs'[kb] == segs[k]
    ensures kn < |segs'| && p == segs'[kn].addr + HEADER && size <= segs'[kn].length && !segs'[kn].free
    ensures segs'[kn] !in Live(segs) && Live(segs') == Live(segs) + {segs'[kn]} && segs[k] in Live(segs)
  {
    ServedIsFresh(segs, start, end, size, segs', end', p, kn);
    assert segs[k] in Live(segs) && segs[k] in Live(segs');
    kb :| kb < |segs'| && segs'[kb] == segs[k];
  }

  lemma CopyRange(segs: seq<Seg>, start: nat, end: nat, kb: nat, kn: nat)
    requires Tiles(segs, start, end) && kb < |segs| && kn < |segs| && kb != kn
    ensures start <= segs[kb].addr && End(segs[kb]) <= end
    ensures End(segs[kb]) <= segs[kn].addr || End(segs[kn]) <= segs[kb].addr
  {
    InHeap(segs, start, end, kb);
    if kb < kn { Ordered(segs, start, end, kb, kn); } else { Ordered(segs, start, end, kn, kb); }
  }

  lemma MovedIs(live: set<Seg>, b: Seg, nb: Seg, rounded: nat, size: nat, segs1: seq<Seg>, segs: seq<Seg>, p: nat)
    returns (k': nat)
    requires b in live && nb !in live && Live(segs1) == live + {nb} && Live(segs) == Live(segs1) - {b}
    requires size <= rounded <= nb.length && p == nb.addr + HEADER
    ensures Moved(live, b, size, segs, p, k')
  {
    assert nb in Live(segs);
    k' :| k' < |segs| && segs[k'] == nb;
  }

  lemma MoveKeeps(segs0: seq<Seg>, segs1: seq<Seg>, segs: seq<Seg>, b: Seg, nb: Seg,
      mem0: Memory, mem1: Memory, mem2: Memory, mem: Memory, src: nat, dst: nat, count: nat)
    requires b in Live(segs0) && nb !in Live(segs0) && Live(segs1) == Live(segs0) + {nb} && Live(segs) == Live(segs1) - {b}
    requires PayloadsKept(Live(segs0), mem0, mem1)
    requires PayloadsKept(Live(segs1) - {nb}, mem1, mem2) && PayloadsKept(Live(segs), mem2, mem)
    requires dst == nb.addr + HEADER && count <= nb.length && src == b.addr + HEADER && count <= b.length
    requires Copied(mem1, mem2, src, dst, count) && forall a :: InPayload(b, a) ==> a in mem0
    ensures PayloadsKept(Live(segs0) - {b}, mem0, mem)
    ensures Copied(mem0, mem, src, dst, count)
  {
    forall i: nat | i < count ensures CopiedAt(mem0, mem, src, dst, i) {
      assert CopiedAt(mem1, mem2, src, dst, i);
      assert InPayload(nb, dst + i) && InPayload(b, src + i);
    }
  }

  lemma PlaceIs(segs: seq<Seg>, k: nat, size: nat)
    requires k < |segs| && Fits(segs[k], size)
    ensures Splits(segs[k], size) ==>
      k < |SplitAt(segs, k, size)| && SplitAt(segs, k, size)[k].addr == segs[k].addr
      && Flag(SplitAt(segs, k, size), k, false) == Place(segs, k, size) && Live(segs) <= Live(SplitAt(segs, k, size))
    ensures !Splits(segs[k], size) ==> Flag(segs, k, false) == Place(segs, k, size)
  {
    if Splits(segs[k], size) {
      assert segs == segs[..k] + [segs[k]] + segs[k + 1..];
    }
  }

  lemma PlaceAt(segs: seq<Seg>, k: nat, size: nat)
    requires k < |segs|
    ensures k < |Place(segs, k, size)| && Place(segs, k, size)[k].addr == segs[k].addr
  {
  }

  lemma MergeKeeps(segs: seq<Seg>, k: nat)
    requires k < |segs|
    ensures k < |MergeForward(segs, k)| && MergeForward(segs, k)[k].addr == segs[k].addr
  {
  }

  lemma AppendDone(mem0: Memory, mem: Memory, start: nat, end: nat, last: nat, segs: seq<Seg>, length: nat)
    requires Linked(mem0, start, end, last, segs) && length >= HEADER
    requires Mapped(mem, start, end + length) && forall a :: a in mem0 ==> a in mem && mem[a] == mem0[a]
    ensures |segs| > 0 && last in mem && mem[last].Header? && last < end
    ensures var m1 := Written(mem, end, Header(length - HEADER, NULL, last, true));
      && last in m1 && m1[last].Header?
      && Linked(SetNext(m1, last, end), start, end + length, end, Appended(segs, end, length))
      && PayloadsKept(Live(segs), mem0, SetNext(m1, last, end))
  {
    hide Represents, PayloadsKept;
    RepresentsAt(mem0, segs, |segs| - 1);
    InHeap(segs, start, end, |segs| - 1);
    var m1 := Written(mem, end, Header(length - HEADER, NULL, last, true));
    AppendLinked(mem0, SetNext(m1, last, end), start, end, last, segs, length);
  }

  lemma ExpandLive(segs: seq<Seg>, start: nat, end: nat, length: nat)
    requires WellFormed(segs, start, end) && RoundPage(length) >= HEADER
    ensures WellFormed(Expand(segs, end, length), start, end + RoundPage(length))
    ensures Live(Expand(segs, end, length)) == Live(segs)
    ensures Live(Appended(segs, end, RoundPage(length))) == Live(segs)
  {
    ExpandWellFormed(segs, start, end, length);
    var s1 := Appended(segs, end, RoundPage(length));
    assert forall s :: s in s1 <==> s in segs || s == s1[|segs|];
  }

  // ----- the stores of split, in the order of the code -----

  lemma SplitReady(mem: Memory, start: nat, end: nat, last: nat, segs: seq<Seg>, k: nat, length: nat)
    requires Linked(mem, start, end, last, segs) && k < |segs| && Splits(segs[k], length)
    ensures InPlace(mem, segs, k) && segs[k].addr != segs[k].addr + length + HEADER
    ensures k + 1 < |segs| ==> InPlace(mem, segs, k + 1) && segs[k + 1].addr == End(segs[k]) && segs[k + 1].addr != NULL
    ensures segs[k].addr + length + HEADER in mem
  {
    hide InPlace;
    RepresentsAt(mem, segs, k);
    InHeap(segs, start, end, k);
    if k + 1 < |segs| {
      RepresentsAt(mem, segs, k + 1);
      InHeap(segs, start, end, k + 1);
    }
  }

  function SplitMem(mem: Memory, h: nat, length: nat): Memory
    requires h in mem && mem[h].Header? && mem[h].length >= length + HEADER
    requires mem[h].next != NULL ==> mem[h].next in mem && mem[h].next != h && mem[mem[h].next].Header?
  {
    var hdr, rest := mem[h], h + length + HEADER;
    var m1 := if hdr.next != NULL then SetLast(mem, hdr.next, rest) else mem;
    var m2 := Written(m1, rest, Header(hdr.length - length - HEADER, hdr.next, h, hdr.free));
    assert m2[h] == hdr;
    SetLength(SetNext(m2, h, rest), h, length)
  }

  lemma SplitMemStores(mem: Memory, start: nat, end: nat, last: nat, segs: seq<Seg>, k: nat, length: nat)
    requires Linked(mem, start, end, last, segs) && k < |segs| && Splits(segs[k], length)
    ensures InPlace(mem, segs, k) && (k + 1 < |segs| ==> InPlace(mem, segs, k + 1) && segs[k + 1].addr == End(segs[k]))
    ensures SplitStores(mem, SplitMem(mem, segs[k].addr, length), segs, k, length)
  {
    hide Linked;
    SplitReady(mem, start, end, last, segs, k, length);
  }

  lemma SplitDone(mem: Memory, start: nat, end: nat, last: nat, last': nat, segs: seq<Seg>, k: nat, length: nat)
    requires Linked(mem, start, end, last, segs) && k < |segs| && segs[k].free && Splits(segs[k], length)
    requires last' == if k + 1 == |segs| then segs[k].addr + length + HEADER else last
    ensures InPlace(mem, segs, k) && (k + 1 < |segs| ==> InPlace(mem, segs, k + 1) && segs[k + 1].addr == End(segs[k]))
    ensures Linked(SplitMem(mem, segs[k].addr, length), start, end, last', SplitAt(segs, k, length))
    ensures PayloadsKept(Live(segs), mem, SplitMem(mem, segs[k].addr, length))
  {
    hide Linked, SplitStores, SplitAt, PayloadsKept;
    SplitMemStores(mem, start, end, last, segs, k, length);
    var mem' := SplitMem(mem, segs[k].addr, length);
    SplitLinked(mem, mem', start, end, last, last', segs, k, length);
    SplitOnlyHeaders(mem, mem', segs, k, length);
    LinkedTiles(mem, start, end, last, segs);
    SplitMissesPayloads(segs, start, end, mem, mem', k, length);
  }

  // ----- the stores of combine_forward, in the order of the code -----

  lemma MergeReady(mem: Memory, start: nat, end: nat, last: nat, segs: seq<Seg>, k: nat)
    requires Linked(mem, start, end, last, segs) && k + 1 < |segs|
    ensures InPlace(mem, segs, k) && InPlace(mem, segs, k + 1) && segs[k + 1].addr == End(segs[k])
    ensures k + 2 < |segs| ==> InPlace(mem, segs, k + 2) && segs[k + 2].addr == End(segs[k + 1])
  {
    hide InPlace;
    RepresentsAt(mem, segs, k);
    RepresentsAt(mem, segs, k + 1);
    if k + 2 < |segs| { RepresentsAt(mem, segs, k + 2); }
  }

  function MergeMem(mem: Memory, h: nat): Memory
    requires h in mem && mem[h].Header? && mem[h].next in mem
    requires mem[mem[h].next].Header?
    requires mem[mem[h].next].next != NULL ==> mem[mem[h].next].next in mem
    requires mem[mem[h].next].next != NULL ==> mem[mem[mem[h].next].next].Header? && mem[mem[h].next].next != h
  {
    var next := mem[mem[h].next];
    var m1 := if next.next != NULL then SetLast(mem, next.next, h) else mem;
    SetNext(SetLength(m1, h, mem[h].length + next.length + HEADER), h, next.next)
  }

  lemma MergeMemStores(mem: Memory, start: nat, end: nat, last: nat, segs: seq<Seg>, k: nat)
    requires Linked(mem, start, end, last, segs) && k + 1 < |segs|
    ensures InPlace(mem, segs, k) && InPlace(mem, segs, k + 1) && segs[k + 1].addr == End(segs[k])
    ensures k + 2 < |segs| ==> InPlace(mem, segs, k + 2) && segs[k + 2].addr == End(segs[k + 1])
    ensures MergeStores(mem, MergeMem(mem, segs[k].addr), segs, k)
  {
    hide Linked;
    MergeReady(mem, start, end, last, segs, k);
  }

  lemma MergeDone(mem: Memory, start: nat, end: nat, last: nat, last': nat, segs: seq<Seg>, k: nat)
    requires Linked(mem, start, end, last, segs) && k + 1 < |segs| && segs[k + 1].free
    requires last' == if k + 2 == |segs| then segs[k].addr else last
    ensures InPlace(mem, segs, k) && InPlace(mem, segs, k + 1) && segs[k + 1].addr == End(segs[k])
    ensures k + 2 < |segs| ==> InPlace(mem, segs, k + 2) && segs[k + 2].addr == End(segs[k + 1])
    ensures Linked(MergeMem(mem, segs[k].addr), start, end, last', MergeForward(segs, k))
    ensures PayloadsKept(Live(segs), mem, MergeMem(mem, segs[k].addr))
  {
    hide Linked, MergeStores, MergeForward, PayloadsKept;
    MergeMemStores(mem, start, end, last, segs, k);
    var mem' := MergeMem(mem, segs[k].addr);
    MergeLinked(mem, mem', start, end, last, last', segs, k);
    MergeOnlyHeaders(mem, mem', segs, k);
    LinkedTiles(mem, start, end, last, segs);
    HeadersMissPayloads(segs, start, end, mem, mem');
  }
}

/** What the heap's stores do to the headers in memory: each of the code's header
    updates, as a function on memory, keeps the headers in step with the
    segments and out of every payload that a caller holds. */
module HeapLinks {
  import opened HeapModel

  const NULL: nat := 0

  datatype Cell = Header(length: nat, next: nat, last: nat, free: bool) | Byte(value: int)

  type Memory = map<nat, Cell>

  /** The header of segment i as the links demand it. */
  function HeaderOf(segs: seq<Seg>, i: nat): Cell
    requires i < |segs|
  {
    Header(segs[i].length,
           if i + 1 < |segs| then segs[i + 1].addr else NULL,
           if i > 0 then segs[i - 1].addr else NULL,
           segs[i].free)
  }

  ghost predicate InPlace(mem: Memory, segs: seq<Seg>, i: nat)
    requires i < |segs|
  {
    segs[i].addr in mem && mem[segs[i].addr] == HeaderOf(segs, i)
  }

  /** Each segment's header is in place; so last inverts next. */
  ghost predicate Represents(mem: Memory, segs: seq<Seg>) {
    forall i: nat :: i < |segs| ==> InPlace(mem, segs, i)
  }

  ghost predicate Ascending(segs: seq<Seg>) {
    forall i: nat, j: nat :: i < j < |segs| ==> End(segs[i]) <= segs[j].addr
  }

  /** The mapped addresses are exactly the heap's. */
  ghost predicate Mapped(mem: Memory, start: nat, end: nat) {
    forall a :: a in mem <==> start <= a < end
  }

  /** Headers tile the heap, links and last_hdr are right. */
  ghost predicate Linked(mem: Memory, start: nat, end: nat, last: nat, segs: seq<Seg>) {
    && start > 0
    && Tiles(segs, start, end)
    && Mapped(mem, start, end)
    && last == segs[|segs| - 1].addr
    && Represents(mem, segs)
  }

  ghost predicate InPayload(s: Seg, a: nat) {
    s.addr + HEADER <= a < End(s)
  }

  /** No payload of the given blocks was written. */
  ghost predicate PayloadsKept(live: set<Seg>, mem: Memory, mem': Memory) {
    forall s, a: nat :: s in live && InPayload(s, a) && a in mem ==> a in mem' && mem'[a] == mem[a]
  }

  lemma TilesAscend(segs: seq<Seg>, start: nat, end: nat)
    requires Tiles(segs, start, end)
    ensures Ascending(segs)
    ensures forall i: nat :: i < |segs| ==> start <= segs[i].addr && End(segs[i]) <= end
  {
    forall i: nat, j: nat | i < j < |segs| ensures End(segs[i]) <= segs[j].addr {
      Ordered(segs, start, end, i, j);
    }
    forall i: nat | i < |segs| ensures start <= segs[i].addr && End(segs[i]) <= end {
      InHeap(segs, start, end, i);
    }
  }

  /** A header never lies in a payload, and its 32 bytes start no other header. */
  lemma HeadersApart(segs: seq<Seg>, i: nat, j: nat)
    requires Ascending(segs) && i < |segs| && j < |segs|
    ensures forall a :: segs[i].addr <= a < segs[i].addr + HEADER ==> !InPayload(segs[j], a)
    ensures i != j ==> !(segs[i].addr <= segs[j].addr < End(segs[i]))
  {
    if i < j { assert End(segs[i]) <= segs[j].addr; }
    if j < i { assert End(segs[j]) <= segs[i].addr; }
  }

  lemma RepresentsAt(mem: Memory, segs: seq<Seg>, i: nat)
    requires Represents(mem, segs) && i < |segs|
    ensures InPlace(mem, segs, i)
  {
  }

  // ----- the stores -----

  /** A new header over the HEADER addresses from a on. */
  function Written(mem: Memory, a: nat, h: Cell): Memory {
    map x | x in mem :: if x == a then h else if a < x < a + HEADER then Byte(0) else mem[x]
  }

  function SetFree(mem: Memory, h: nat, free: bool): Memory
    requires h in mem && mem[h].Header?
  {
    mem[h := mem[h].(free := free)]
  }

  function SetLast(mem: Memory, h: nat, last: nat): Memory
    requires h in mem && mem[h].Header?
  {
    mem[h := mem[h].(last := last)]
  }

  function SetNext(mem: Memory, h: nat, next: nat): Memory
    requires h in mem && mem[h].Header?
  {
    mem[h := mem[h].(next := next)]
  }

  function SetLength(mem: Memory, h: nat, length: nat): Memory
    requires h in mem && mem[h].Header?
  {
    mem[h := mem[h].(length := length)]
  }

  function Headers(segs: seq<Seg>): set<nat> {
    set s | s in segs :: s.addr
  }

  lemma HeaderOfSegment(segs: seq<Seg>, i: nat)
    requires i < |segs|
    ensures segs[i].addr in Headers(segs)
  {
    assert segs[i] in segs;
  }

  /** Outside the HEADER addresses from each of hs on nothing changed. */
  ghost predicate OnlyHeaders(mem: Memory, mem': Memory, hs: set<nat>) {
    && mem'.Keys == mem.Keys
    && forall a :: a in mem && mem'[a] != mem[a] ==> exists h :: h in hs && h <= a < h + HEADER
  }

  // ----- free flags -----

  function Flag(segs: seq<Seg>, k: nat, free: bool): seq<Seg>
    requires k < |segs|
  {
    segs[k := segs[k].(free := free)]
  }

  lemma FlagInPlace(mem: Memory, segs: seq<Seg>, k: nat, free: bool, i: nat)
    requires Ascending(segs) && Represents(mem, segs) && k < |segs| && i < |segs|
    requires segs[k].addr in mem && mem[segs[k].addr].Header?
    ensures InPlace(SetFree(mem, segs[k].addr, free), Flag(segs, k, free), i)
  {
    hide Ascending, Represents;
    RepresentsAt(mem, segs, i);
    HeadersApart(segs, i, k);
  }

  lemma FlagLinked(mem: Memory, start: nat, end: nat, last: nat, segs: seq<Seg>, k: nat, free: bool)
    requires Linked(mem, start, end, last, segs) && k < |segs|
    ensures segs[k].addr in mem && mem[segs[k].addr].Header?
    ensures Linked(SetFree(mem, segs[k].addr, free), start, end, last, Flag(segs, k, free))
    ensures OnlyHeaders(mem, SetFree(mem, segs[k].addr, free), Headers(segs))
  {
    TilesAscend(segs, start, end);
    RepresentsAt(mem, segs, k);
    var mem', segs' := SetFree(mem, segs[k].addr, free), Flag(segs, k, free);
    forall i: nat | i < |segs'| ensures InPlace(mem', segs', i) {
      FlagInPlace(mem, segs, k, free, i);
    }
    HeaderOfSegment(segs, k);
  }

  // ----- combine_forward -----

  lemma MergedAt(segs: seq<Seg>, k: nat, i: nat)
    requires k + 1 < |segs| && segs[k + 1].free && i < |segs| - 1
    ensures |MergeForward(segs, k)| == |segs| - 1
    ensures i < k ==> MergeForward(segs, k)[i] == segs[i]
    ensures i == k ==> MergeForward(segs, k)[i] == segs[k].(length := segs[k].length + segs[k + 1].length + HEADER)
    ensures i > k ==> MergeForward(segs, k)[i] == segs[i + 1]
  {
  }

  /** The stores of combine_forward on segment k, whose successor is free. */
  ghost predicate MergeStores(mem: Memory, mem': Memory, segs: seq<Seg>, k: nat)
    requires k + 1 < |segs|
  {
    && mem'.Keys == mem.Keys
    && (forall a :: a in mem && a != segs[k].addr && (k + 2 < |segs| ==> a != segs[k + 2].addr) ==> mem'[a] == mem[a])
    && segs[k].addr in mem
    && mem[segs[k].addr].Header?
    && mem'[segs[k].addr] == Header(segs[k].length + segs[k + 1].length + HEADER,
                                    if k + 2 < |segs| then segs[k + 2].addr else NULL,
                                    mem[segs[k].addr].last, segs[k].free)
    && (k + 2 < |segs| ==>
          segs[k + 2].addr in mem && mem[segs[k + 2].addr].Header?
          && mem'[segs[k + 2].addr] == mem[segs[k + 2].addr].(last := segs[k].addr))
  }

  lemma MergeInPlace(mem: Memory, mem': Memory, segs: seq<Seg>, k: nat, i: nat)
    requires Ascending(segs) && Represents(mem, segs) && k + 1 < |segs| && segs[k + 1].free
    requires MergeStores(mem, mem', segs, k)
    requires i < |MergeForward(segs, k)|
    ensures InPlace(mem', MergeForward(segs, k), i)
  {
    hide MergeForward, Ascending, Represents;
    MergedAt(segs, k, 0);
    MergedAt(segs, k, i);
    if i + 1 < |segs| - 1 { MergedAt(segs, k, i + 1); }
    if i > 0 { MergedAt(segs, k, i - 1); }
    var o := if i <= k then i else i + 1;
    RepresentsAt(mem, segs, o);
    HeadersApart(segs, o, k);
    if k + 2 < |segs| { HeadersApart(segs, o, k + 2); }
  }

  lemma MergeLinked(mem: Memory, mem': Memory, start: nat, end: nat, last: nat, last': nat, segs: seq<Seg>, k: nat)
    requires Linked(mem, start, end, last, segs) && k + 1 < |segs| && segs[k + 1].free
    requires MergeStores(mem, mem', segs, k)
    requires last' == if k + 2 == |segs| then segs[k].addr else last
    ensures Linked(mem', start, end, last', MergeForward(segs, k))
  {
    hide InPlace, MergeStores, SplitStores, MergeForward, SplitAt;
    TilesAscend(segs, start, end);
    MergeTiles(segs, start, end, k);
    forall i: nat | i < |MergeForward(segs, k)| ensures InPlace(mem', MergeForward(segs, k), i) {
      MergeInPlace(mem, mem', segs, k, i);
    }
    MergedAt(segs, k, |segs| - 2);
    MergeKeepsKeys(mem, mem', segs, k);
  }

  lemma MergeKeepsKeys(mem: Memory, mem': Memory, segs: seq<Seg>, k: nat)
    requires k + 1 < |segs| && MergeStores(mem, mem', segs, k)
    ensures mem'.Keys == mem.Keys
  {
  }

  lemma MergeOnlyHeaders(mem: Memory, mem': Memory, segs: seq<Seg>, k: nat)
    requires k + 1 < |segs| && MergeStores(mem, mem', segs, k)
    ensures OnlyHeaders(mem, mem', Headers(segs))
  {
    HeaderOfSegment(segs, k);
    if k + 2 < |segs| { HeaderOfSegment(segs, k + 2); }
  }

  // ----- split -----

  /** Segment k cut after length bytes, both parts as free as it was. */
  function SplitAt(segs: seq<Seg>, k: nat, length: nat): seq<Seg>
    requires k < |segs| && Splits(segs[k], length)
  {
    var s := segs[k];
    segs[..k] + [Seg(s.addr, length, s.free), Seg(s.addr + length + HEADER, s.length - length - HEADER, s.free)] + segs[k + 1..]
  }

  lemma SplitAtIs(segs: seq<Seg>, k: nat, length: nat, i: nat)
    requires k < |segs| && Splits(segs[k], length) && i <= |segs|
    ensures |SplitAt(segs, k, length)| == |segs| + 1
    ensures i < k ==> SplitAt(segs, k, length)[i] == segs[i]
    ensures i == k ==> SplitAt(segs, k, length)[i] == Seg(segs[k].addr, length, segs[k].free)
    ensures i == k + 1 ==> SplitAt(segs, k, length)[i]
                           == Seg(segs[k].addr + length + HEADER, segs[k].length - length - HEADER, segs[k].free)
    ensures i > k + 1 ==> SplitAt(segs, k, length)[i] == segs[i - 1]
  {
  }

  lemma SplitTiles(segs: seq<Seg>, start: nat, end: nat, k: nat, length: nat)
    requires Tiles(segs, start, end) && k < |segs| && Splits(segs[k], length)
    ensures Tiles(SplitAt(segs, k, length), start, end)
  {
    var segs' := SplitAt(segs, k, length);
    SplitAtIs(segs, k, length, 0);
    SplitAtIs(segs, k, length, |segs|);
    forall i, j | 0 <= i && i + 1 == j && j < |segs'| ensures End(segs'[i]) == segs'[j].addr {
      SplitAtIs(segs, k, length, i);
      SplitAtIs(segs, k, length, j);
    }
  }

  /** The stores of split on segment k. */
  ghost predicate SplitStores(mem: Memory, mem': Memory, segs: seq<Seg>, k: nat, length: nat)
    requires k < |segs| && Splits(segs[k], length)
  {
    var h, rest := segs[k].addr, segs[k].addr + length + HEADER;
    && mem'.Keys == mem.Keys
    && (forall a :: a in mem && a != h && !(rest <= a < rest + HEADER) && (k + 1 < |segs| ==> a != segs[k + 1].addr) ==>
          mem'[a] == mem[a])
    && h in mem && rest in mem && mem[h].Header?
    && mem'[h] == Header(length, rest, mem[h].last, segs[k].free)
    && mem'[rest] == Header(segs[k].length - length - HEADER, if k + 1 < |segs| then segs[k + 1].addr else NULL, h, segs[k].free)
    && (k + 1 < |segs| ==>
          segs[k + 1].addr in mem && mem[segs[k + 1].addr].Header?
          && mem'[segs[k + 1].addr] == mem[segs[k + 1].addr].(last := rest))
  }

  lemma SplitInPlace(mem: Memory, mem': Memory, segs: seq<Seg>, k: nat, length: nat, i: nat)
    requires Ascending(segs) && Represents(mem, segs) && k < |segs| && Splits(segs[k], length)
    requires SplitStores(mem, mem', segs, k, length)
    requires i < |SplitAt(segs, k, length)|
    ensures InPlace(mem', SplitAt(segs, k, length), i)
  {
    hide SplitAt, Ascending, Represents;
    SplitAtIs(segs, k, length, 0);
    SplitAtIs(segs, k, length, i);
    if i + 1 <= |segs| { SplitAtIs(segs, k, length, i + 1); }
    if i > 0 { SplitAtIs(segs, k, length, i - 1); }
    var o := if i <= k then i else i - 1;
    RepresentsAt(mem, segs, o);
    HeadersApart(segs, k, o);
    HeadersApart(segs, o, k);
    if k + 1 < |segs| { HeadersApart(segs, o, k + 1); }
  }

  lemma SplitLinked(mem: Memory, mem': Memory, start: nat, end: nat, last: nat, last': nat, segs: seq<Seg>, k: nat, length: nat)
    requires Linked(mem, start, end, last, segs) && k < |segs| && Splits(segs[k], length)
    requires SplitStores(mem, mem', segs, k, length)
    requires last' == if k + 1 == |segs| then segs[k].addr + length + HEADER else last
    ensures Linked(mem', start, end, last', SplitAt(segs, k, length))
  {
    hide InPlace, MergeStores, SplitStores, MergeForward, SplitAt;
    TilesAscend(segs, start, end);
    SplitTiles(segs, start, end, k, length);
    forall i: nat | i < |SplitAt(segs, k, length)| ensures InPlace(mem', SplitAt(segs, k, length), i) {
      SplitInPlace(mem, mem', segs, k, length, i);
    }
    SplitAtIs(segs, k, length, |segs|);
    SplitKeepsKeys(mem, mem', segs, k, length);
  }

  lemma SplitKeepsKeys(mem: Memory, mem': Memory, segs: seq<Seg>, k: nat, length: nat)
    requires k < |segs| && Splits(segs[k], length) && SplitStores(mem, mem', segs, k, length)
    ensures mem'.Keys == mem.Keys
  {
  }

  lemma SplitOnlyHeaders(mem: Memory, mem': Memory, segs: seq<Seg>, k: nat, length: nat)
    requires k < |segs| && Splits(segs[k], length) && SplitStores(mem, mem', segs, k, length)
    ensures OnlyHeaders(mem, mem', Headers(segs) + {segs[k].addr + length + HEADER})
  {
    HeaderOfSegment(segs, k);
    if k + 1 < |segs| { HeaderOfSegment(segs, k + 1); }
  }

  // ----- expand_heap -----

  function Appended(segs: seq<Seg>, end: nat, length: nat): seq<Seg>
    requires length >= HEADER
  {
    segs + [Seg(end, length - HEADER, true)]
  }

  /** The stores of expand_heap once length more bytes are mapped. */
  ghost predicate AppendStores(mem: Memory, mem': Memory, start: nat, end: nat, last: nat, length: nat)
    requires length >= HEADER
  {
    && Mapped(mem', start, end + length)
    && (forall a :: a in mem && a != last ==> a in mem' && mem'[a] == mem[a])
    && last in mem && last in mem' && mem[last].Header?
    && mem'[last] == mem[last].(next := end)
    && end in mem' && mem'[end] == Header(length - HEADER, NULL, last, true)
  }

  lemma AppendInPlace(mem: Memory, mem': Memory, start: nat, end: nat, segs: seq<Seg>, length: nat, i: nat)
    requires Ascending(segs) && Represents(mem, segs) && |segs| > 0 && length >= HEADER && i <= |segs|
    requires AppendStores(mem, mem', start, end, segs[|segs| - 1].addr, length)
    ensures InPlace(mem', Appended(segs, end, length), i)
  {
    hide Ascending, Represents;
    if i < |segs| {
      RepresentsAt(mem, segs, i);
      HeadersApart(segs, i, |segs| - 1);
    }
  }

  lemma AppendTiles(segs: seq<Seg>, start: nat, end: nat, length: nat)
    requires Tiles(segs, start, end) && length >= HEADER
    ensures Tiles(Appended(segs, end, length), start, end + length)
  {
  }

  lemma AppendLinked(mem: Memory, mem': Memory, start: nat, end: nat, last: nat, segs: seq<Seg>, length: nat)
    requires Linked(mem, start, end, last, segs) && length >= HEADER
    requires AppendStores(mem, mem', start, end, last, length)
    ensures Linked(mem', start, end + length, end, Appended(segs, end, length))
    ensures PayloadsKept(Live(segs), mem, mem')
  {
    hide InPlace;
    TilesAscend(segs, start, end);
    AppendTiles(segs, start, end, length);
    forall i: nat | i <= |segs| ensures InPlace(mem', Appended(segs, end, length), i) {
      AppendInPlace(mem, mem', start, end, segs, length, i);
    }
    assert |Appended(segs, end, length)| == |segs| + 1;
    forall s | s in Live(segs) ensures Misses(last, s) {
      HeaderMisses(segs, segs[|segs| - 1], s);
    }
  }

  // ----- payloads -----

  /** None of the HEADER addresses from h on lies in the payload of s. */
  ghost predicate Misses(h: nat, s: Seg) {
    h + HEADER <= s.addr + HEADER || End(s) <= h
  }

  lemma HeaderMisses(segs: seq<Seg>, t: Seg, s: Seg)
    requires Ascending(segs) && t in segs && s in segs
    ensures Misses(t.addr, s)
  {
    var i: nat :| i < |segs| && segs[i] == t;
    var j: nat :| j < |segs| && segs[j] == s;
    if i < j { assert End(segs[i]) <= segs[j].addr; }
    if j < i { assert End(segs[j]) <= segs[i].addr; }
  }

  lemma HeaderStoresKeepPayloads(live: set<Seg>, mem: Memory, mem': Memory, hs: set<nat>)
    requires OnlyHeaders(mem, mem', hs)
    requires forall h, s :: h in hs && s in live ==> Misses(h, s)
    ensures PayloadsKept(live, mem, mem')
  {
  }

  lemma HeadersMissPayloads(segs: seq<Seg>, start: nat, end: nat, mem: Memory, mem': Memory)
    requires Tiles(segs, start, end)
    requires OnlyHeaders(mem, mem', Headers(segs))
    ensures PayloadsKept(Live(segs), mem, mem')
  {
    TilesAscend(segs, start, end);
    forall h, s | h in Headers(segs) && s in Live(segs) ensures Misses(h, s) {
      var t :| t in segs && t.addr == h;
      HeaderMisses(segs, t, s);
    }
    HeaderStoresKeepPayloads(Live(segs), mem, mem', Headers(segs));
  }

  /** split writes its new header inside the free segment it cuts. */
  lemma SplitMissesPayloads(segs: seq<Seg>, start: nat, end: nat, mem: Memory, mem': Memory, k: nat, length: nat)
    requires Tiles(segs, start, end) && k < |segs| && segs[k].free && Splits(segs[k], length)
    requires OnlyHeaders(mem, mem', Headers(segs) + {segs[k].addr + length + HEADER})
    ensures PayloadsKept(Live(segs), mem, mem')
  {
    hide OnlyHeaders, PayloadsKept;
    TilesAscend(segs, start, end);
    var rest := segs[k].addr + length + HEADER;
    forall h, s | h in Headers(segs) + {rest} && s in Live(segs) ensures Misses(h, s) {
      if h in Headers(segs) {
        var t :| t in segs && t.addr == h;
        HeaderMisses(segs, t, s);
      } else {
        RestMisses(segs, k, length, s);
      }
    }
    HeaderStoresKeepPayloads(Live(segs), mem, mem', Headers(segs) + {rest});
  }

  lemma RestMisses(segs: seq<Seg>, k: nat, length: nat, s: Seg)
    requires Ascending(segs) && k < |segs| && segs[k].free && Splits(segs[k], length) && s in Live(segs)
    ensures Misses(segs[k].addr + length + HEADER, s)
  {
    var j: nat :| j < |segs| && segs[j] == s;
    if k < j { assert End(segs[k]) <= segs[j].addr; }
    if j < k { assert End(segs[j]) <= segs[k].addr; }
  }

  lemma PayloadsKeptTransitive(live: set<Seg>, live': set<Seg>, m0: Memory, m1: Memory, m2: Memory)
    requires PayloadsKept(live, m0, m1) && PayloadsKept(live', m1, m2) && live <= live'
    ensures PayloadsKept(live, m0, m2)
  {
  }
}

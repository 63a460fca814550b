/** PageTableManager over the frame allocator
    (src/paging/page_table_manager.cpp): map_memory refines an update of a map
    from virtual pages to frames, and what map_range maps. */
module PageTables {
  import opened PageEntries
  import opened PageTree
  import Bitmaps
  import FramesModel
  import opened FrameAllocator

  /** The frames that request_page can still hand out. */
  ghost function Unmarked(f: FramesModel.Frames): set<nat> {
    set x: nat | x < f.limit && x !in f.marked
  }

  /** The tables among paths that do not exist yet. */
  ghost function Absent(mem: Memory, root: nat, paths: set<Path>): set<Path> {
    set q | q in paths && Walk(mem, root, q).None?
  }

  /** The tables on the way to the page with the given indices. */
  function Tables(path: Path): set<Path>
    requires |path| == 4
  {
    {path[..1], path[..2], path[..3]}
  }

  ghost predicate Short(paths: set<Path>) {
    forall q :: q in paths ==> |q| <= 3
  }

  /** Entries fit their 64 bits, and all present ones are writable. */
  ghost predicate Sound(mem: Memory) {
    forall t: nat, i: nat :: t in mem && i < |mem[t]| ==> SoundEntry(mem[t][i])
  }

  predicate SoundEntry(e: nat) {
    e < U64 && (FlagRead(e, PRESENT) ==> Bit(e, READ_WRITE) == 1)
  }

  ghost predicate SameExcept(mem: Memory, mem': Memory, root: nat, x: Path) {
    forall q: Path :: |q| <= 4 && q != x ==> Walk(mem', root, q) == Walk(mem, root, q)
  }

  /** No page but x changed its translation. */
  ghost predicate SamePages(mem: Memory, mem': Memory, root: nat, x: Path) {
    forall q: Path :: |q| == 4 && q != x ==> Walk(mem', root, q) == Walk(mem, root, q)
  }

  class PageTableManager {
    var memory: Memory  // the frames that hold tables
    const pml4: nat
    const allocator: PageFrameAllocator

    ghost predicate Valid()
      reads this, allocator, allocator.pageBitmap.buffer
    {
      && allocator.Valid()
      && IsTree(memory, pml4, allocator.pageBitmap.Marked())
      && Sound(memory)
    }

    /** There are frames for the tables that the given paths still lack. */
    ghost predicate Enough(paths: set<Path>)
      requires allocator.Valid()
      reads this, allocator, allocator.pageBitmap.buffer
    {
      |Absent(memory, pml4, paths)| <= |Unmarked(allocator.State())|
    }

    /** Takes over the tables below a PML4 as they are: they must be a tree of
        marked frames. A zeroed PML4 is one that maps nothing (EmptyRootIsTree,
        EmptyRoot). */
    constructor (allocator: PageFrameAllocator, frame: nat, tables: Memory)
      requires allocator.Valid() && IsTree(tables, frame, allocator.pageBitmap.Marked()) && Sound(tables)
      ensures Valid() && pml4 == frame && this.allocator == allocator && memory == tables
    {
      this.allocator := allocator;
      pml4 := frame;
      memory := tables;
    }

    /** The manager that starts with a zeroed PML4. */
    constructor Zeroed(allocator: PageFrameAllocator, frame: nat)
      requires allocator.Valid() && frame in allocator.pageBitmap.Marked()
      ensures Valid() && pml4 == frame && this.allocator == allocator
      ensures forall q: Path :: q != [] ==> Walk(memory, pml4, q).None?
    {
      this.allocator := allocator;
      pml4 := frame;
      memory := map[frame := Zeros()];
      new;
      EmptyRootIsTree(memory, frame, allocator.pageBitmap.Marked());
      forall q: Path | q != [] ensures Walk(memory, pml4, q).None? {
        EmptyRoot(memory, frame, q);
      }
    }

    method NewTable(table: nat, index: nat, pde: PageDirectoryEntry, ghost p: Path, ghost paths: set<Path>) returns (next: nat)
      requires Valid() && IsTable(memory, pml4, p, table) && |p| <= 2
      requires table in memory && index < |memory[table]| && pde.value == memory[table][index] && Walk(memory, pml4, p + [index]).None?
      requires p + [index] in paths && Short(paths) && Enough(paths)
      modifies `memory, allocator, allocator.pageBitmap.buffer, pde
      ensures Valid() && Enough(paths)
      ensures IsTable(memory, pml4, p + [index], next)
      ensures SameExcept(old(memory), memory, pml4, p + [index])
    {
      hide IsTree, Sound, SameExcept, Absent, Unmarked, FramesModel.Touch, Bitmaps.Bitmap.Marked, WithFlag, WithAddress, FramesModel.Lowest;
      ghost var frames := allocator.State();
      ghost var f := FreshFrame(memory, pml4, frames, paths, p + [index]);
      SoundAt(memory, table, index);
      var page := allocator.RequestPage();
      next := page / 4096;
      assert next == f && allocator.State() == FramesModel.Touch(frames, FramesModel.Lock, f);
      memory := memory[next := Zeros()];
      pde.SetAddress(page / 4096);
      pde.SetFlag(PRESENT, true);
      pde.SetFlag(READ_WRITE, true);
      NewTableDone(old(memory), pml4, frames, p, table, index, f, paths);
      memory := Written(memory, table, index, pde.value);
    }

    /** One level of map_memory: the table behind an entry, created if absent. */
    method Descend(table: nat, index: nat, ghost p: Path, ghost paths: set<Path>) returns (next: nat)
      requires Valid() && IsTable(memory, pml4, p, table) && |p| <= 2 && index < 512
      requires p + [index] in paths && Short(paths) && Enough(paths)
      modifies `memory, allocator, allocator.pageBitmap.buffer
      ensures Valid() && Enough(paths)
      ensures IsTable(memory, pml4, p + [index], next)
      ensures SameExcept(old(memory), memory, pml4, p + [index])
    {
      ghost var marked := allocator.pageBitmap.Marked();
      TableMarked(memory, pml4, marked, p, table);
      WalkStep(memory, pml4, p, index);
      var pde := new PageDirectoryEntry(memory[table][index]);
      if !pde.GetFlag(PRESENT) {
        next := NewTable(table, index, pde, p, paths);
      } else {
        next := pde.GetAddress();
      }
    }

    /** The last entry, for the page itself. */
    method MapPage(table: nat, index: nat, frame: nat, ghost p: Path, ghost paths: set<Path>)
      requires Valid() && IsTable(memory, pml4, p, table) && |p| == 3 && index < 512
      requires Short(paths) && Enough(paths)
      modifies `memory
      ensures Valid() && Enough(paths)
      ensures Walk(memory, pml4, p + [index]) == Some(frame % FRAMES)
      ensures SamePages(old(memory), memory, pml4, p + [index])
    {
      hide IsTree, Sound, SamePages, Absent, Unmarked, Bitmaps.Bitmap.Marked, WithFlag, WithAddress, Walk;
      TableMarked(memory, pml4, allocator.pageBitmap.Marked(), p, table);
      MapPageDone(memory, pml4, allocator.pageBitmap.Marked(), p, table, index, frame, paths);
      var pde := new PageDirectoryEntry(memory[table][index]);
      pde.SetAddress(frame);
      pde.SetFlag(PRESENT, true);
      pde.SetFlag(READ_WRITE, true);
      memory := Written(memory, table, index, pde.value);
    }

    /** Maps the page of a virtual address to the frame of a physical one: its
        translation becomes that frame, every other 48-bit page translates as
        before, and the tables still form a tree of frames of their own. */
    method MapMemory(virtualMemory: nat, physicalMemory: nat, ghost paths: set<Path>)
      requires Valid() && Tables(Indices(virtualMemory / 4096)) <= paths && Short(paths) && Enough(paths)
      modifies `memory, allocator, allocator.pageBitmap.buffer
      ensures Valid() && Enough(paths)
      ensures Walk(memory, pml4, Indices(virtualMemory / 4096)) == Some(physicalMemory / 4096 % FRAMES)
      ensures SamePages(old(memory), memory, pml4, Indices(virtualMemory / 4096))
    {
      hide IsTree, Sound, Absent, Unmarked, Bitmaps.Bitmap.Marked, Walk, SamePages, SameExcept, Indices;
      IndicesFit(virtualMemory / 4096);
      ghost var path := Indices(virtualMemory / 4096);
      ghost var mem0 := memory;
      RootIsTable(memory, pml4);
      PathParts(path);
      var indexer := new PageMapIndexer(virtualMemory);
      var pdp := Descend(pml4, indexer.pdpI, [], paths);
      ghost var mem1 := memory;
      var pd := Descend(pdp, indexer.pdI, path[..1], paths);
      ghost var mem2 := memory;
      var pt := Descend(pd, indexer.ptI, path[..2], paths);
      ghost var mem3 := memory;
      MapPage(pt, indexer.pI, physicalMemory / 4096, path[..3], paths);
      MapSteps(mem0, mem1, mem2, mem3, memory, pml4, path);
    }

    /** Maps a range in steps of 1000 bytes: the page of every step ends up at the
        frame of a step in the same page, all other pages translate as before. */
    method MapRange(virtualMemory: nat, physicalMemory: nat, range: nat, ghost paths: set<Path>)
      requires Valid() && Short(paths) && Enough(paths)
      requires range <= 0x8000_0000 - STEP
      requires forall j: nat :: j < Steps(range) ==> Tables(StepPage(virtualMemory, j)) <= paths
      modifies `memory, allocator, allocator.pageBitmap.buffer
      ensures Valid() && Enough(paths)
      ensures RangeMapped(old(memory), memory, pml4, virtualMemory, physicalMemory, Steps(range))
    {
      hide IsTree, Sound, Absent, Unmarked, Walk, StepPage, SamePages, Tables, Short;
      ghost var n := 0;
      var i := 0;
      RangeStart(memory, pml4, virtualMemory, physicalMemory);
      while i < range
        invariant i == n * STEP && n <= Steps(range)
        invariant Valid() && Enough(paths)
        invariant RangeMapped(old(memory), memory, pml4, virtualMemory, physicalMemory, n)
      {
        StepPageIs(virtualMemory, n);
        ghost var before := memory;
        MapMemory(virtualMemory + i, physicalMemory + i, paths);
        RangeStep(old(memory), before, memory, pml4, virtualMemory, physicalMemory, n);
        i, n := i + STEP, n + 1;
      }
    }
  }

  const STEP := 1000  // decimal, not a page

  function Steps(range: nat): nat {
    (range + STEP - 1) / STEP
  }

  /** The page that step j of a range maps. */
  function StepPage(v: nat, j: nat): Path {
    Indices((v + j * STEP) / 4096)
  }

  lemma StepPageIs(v: nat, j: nat)
    ensures StepPage(v, j) == Indices((v + j * STEP) / 4096) && |StepPage(v, j)| == 4
  {
  }

  ghost predicate StepDone(mem: Memory, root: nat, v: nat, p: nat, n: nat, j: nat) {
    exists k: nat :: k < n && StepPage(v, k) == StepPage(v, j)
                     && Walk(mem, root, StepPage(v, j)) == Some((p + k * STEP) / 4096 % FRAMES)
  }

  ghost predicate Untouched(v: nat, n: nat, q: Path) {
    forall j: nat :: j < n ==> StepPage(v, j) != q
  }

  ghost predicate RangeMapped(mem0: Memory, mem: Memory, root: nat, v: nat, p: nat, n: nat) {
    && (forall j: nat :: j < n ==> StepDone(mem, root, v, p, n, j))
    && (forall q: Path :: |q| == 4 && Untouched(v, n, q) ==> Walk(mem, root, q) == Walk(mem0, root, q))
  }

  lemma RangeStart(mem: Memory, root: nat, v: nat, p: nat)
    ensures RangeMapped(mem, mem, root, v, p, 0)
  {
  }

  lemma RangeStep(mem0: Memory, mem: Memory, mem': Memory, root: nat, v: nat, p: nat, n: nat)
    requires RangeMapped(mem0, mem, root, v, p, n)
    requires Walk(mem', root, StepPage(v, n)) == Some((p + n * STEP) / 4096 % FRAMES)
    requires SamePages(mem, mem', root, StepPage(v, n))
    ensures RangeMapped(mem0, mem', root, v, p, n + 1)
  {
    hide Walk, StepPage;
    var n' := n + 1;
    forall j: nat | j < n' ensures StepDone(mem', root, v, p, n', j) {
      StepPageIs(v, j);
      if StepPage(v, j) != StepPage(v, n) { assert StepDone(mem, root, v, p, n, j); }
    }
    forall q: Path | |q| == 4 && Untouched(v, n + 1, q) ensures Walk(mem', root, q) == Walk(mem0, root, q) {
      assert Untouched(v, n, q);
    }
  }

  lemma IndicesFit(page: nat)
    ensures |Indices(page)| == 4 && forall i :: 0 <= i < 4 ==> Indices(page)[i] < 512
  {
  }

  lemma RootIsTable(mem: Memory, root: nat)
    ensures IsTable(mem, root, [], root)
  {
  }

  lemma PathParts(path: Path)
    requires |path| == 4
    ensures [] + [path[0]] == path[..1] && path[..1] + [path[1]] == path[..2]
    ensures path[..2] + [path[2]] == path[..3] && path[..3] + [path[3]] == path
  {
  }

  lemma MapSteps(m0: Memory, m1: Memory, m2: Memory, m3: Memory, m4: Memory, root: nat, path: Path)
    requires |path| == 4
    requires SameExcept(m0, m1, root, path[..1]) && SameExcept(m1, m2, root, path[..2])
    requires SameExcept(m2, m3, root, path[..3]) && SamePages(m3, m4, root, path)
    ensures SamePages(m0, m4, root, path)
  {
    hide Walk;
  }

  lemma MapPageDone(mem: Memory, root: nat, marked: set<nat>, p: Path, t: nat, index: nat, frame: nat, paths: set<Path>)
    requires IsTree(mem, root, marked) && IsTable(mem, root, p, t) && |p| == 3 && Sound(mem)
    requires t in mem && index < |mem[t]| && Short(paths)
    ensures mem[t][index] < U64
    ensures var mem' := Written(mem, t, index, Linked(mem[t][index], frame));
      && IsTree(mem', root, marked) && Sound(mem')
      && Walk(mem', root, p + [index]) == Some(frame % FRAMES)
      && SamePages(mem, mem', root, p + [index])
      && Absent(mem', root, paths) == Absent(mem, root, paths)
  {
    hide IsTree, Linked, Walk;
    SoundAt(mem, t, index);
    var entry := Linked(mem[t][index], frame);
    LinkedIs(mem[t][index], frame);
    LeafKeepsTree(mem, root, marked, p, t, index, entry);
    forall q: Path | |q| <= 4
      ensures Walk(Written(mem, t, index, entry), root, q) == if q == p + [index] then Decode(entry) else Walk(mem, root, q)
    {
      LeafWalks(mem, root, marked, p, t, index, entry, q);
    }
  }

  lemma SoundAt(mem: Memory, t: nat, i: nat)
    requires Sound(mem) && t in mem && i < |mem[t]|
    ensures SoundEntry(mem[t][i])
  {
  }

  /** While a table is absent and the frames suffice, there is one to be had. */
  lemma FreshFrame(mem: Memory, root: nat, f: FramesModel.Frames, paths: set<Path>, x: Path) returns (frame: nat)
    requires |Absent(mem, root, paths)| <= |Unmarked(f)| && x in paths && Walk(mem, root, x).None?
    ensures frame == FramesModel.Lowest(f.marked, f.limit, 0) < f.limit && frame !in f.marked
  {
    frame := FramesModel.Lowest(f.marked, f.limit, 0);
    assert x in Absent(mem, root, paths);
    assert Unmarked(f) != {};
    var y :| y in Unmarked(f);
  }

  lemma NewTableDone(mem: Memory, root: nat, f: FramesModel.Frames, p: Path, t: nat, index: nat, frame: nat, paths: set<Path>)
    requires IsTree(mem, root, f.marked) && IsTable(mem, root, p, t) && |p| <= 2 && t in mem && index < |mem[t]|
    requires Sound(mem) && Walk(mem, root, p + [index]).None? && p + [index] in paths && Short(paths)
    requires frame < f.limit < FRAMES && frame !in f.marked
    requires |Absent(mem, root, paths)| <= |Unmarked(f)|
    ensures t in mem[frame := Zeros()] && t != frame && mem[t][index] < U64
    ensures var mem1 := Written(mem[frame := Zeros()], t, index, Linked(mem[t][index], frame));
      var f1 := FramesModel.Touch(f, FramesModel.Lock, frame);
      && IsTree(mem1, root, f1.marked) && Sound(mem1)
      && IsTable(mem1, root, p + [index], frame)
      && SameExcept(mem, mem1, root, p + [index])
      && |Absent(mem1, root, paths)| <= |Unmarked(f1)|
  {
    hide IsTree, Linked, Walk;
    var x, f1 := p + [index], FramesModel.Touch(f, FramesModel.Lock, frame);
    TableMarked(mem, root, f.marked, p, t);
    SoundAt(mem, t, index);
    LinkedIs(mem[t][index], frame);
    var mem0, entry := mem[frame := Zeros()], Linked(mem[t][index], frame);
    ClearKeepsTree(mem, root, f.marked, frame);
    ClearElsewhere(mem, root, f.marked, frame, p);
    ClearElsewhere(mem, root, f.marked, frame, x);
    LinkKeepsTree(mem0, root, f.marked, p, t, index, entry, frame);
    var mem1 := Written(mem0, t, index, entry);
    forall q: Path | |q| <= 4 ensures Walk(mem1, root, q) == if q == x then Some(frame) else Walk(mem, root, q) {
      ClearElsewhere(mem, root, f.marked, frame, q);
      LinkWalks(mem0, root, f.marked, p, t, index, entry, frame, q);
    }
    OneFewer(mem, mem1, root, paths, x, f, f1, frame);
  }

  lemma OneFewer(mem: Memory, mem1: Memory, root: nat, paths: set<Path>, x: Path, f: FramesModel.Frames, f1: FramesModel.Frames, frame: nat)
    requires x in paths && Walk(mem, root, x).None? && Walk(mem1, root, x).Some?
    requires forall q :: q in paths && q != x ==> Walk(mem1, root, q) == Walk(mem, root, q)
    requires frame < f.limit == f1.limit && frame !in f.marked && f1.marked == f.marked + {frame}
    ensures |Absent(mem1, root, paths)| == |Absent(mem, root, paths)| - 1 && |Unmarked(f1)| == |Unmarked(f)| - 1
  {
    assert Absent(mem1, root, paths) == Absent(mem, root, paths) - {x};
    assert x in Absent(mem, root, paths);
    assert Unmarked(f1) == Unmarked(f) - {frame};
    assert frame in Unmarked(f);
  }

  // ----- any sequence of map_memory calls -----

  datatype Call = Call(virtualMemory: nat, physicalMemory: nat)

  ghost predicate IsCall(mem: Memory, mem': Memory, root: nat, c: Call) {
    && Walk(mem', root, Indices(c.virtualMemory / 4096)) == Some(c.physicalMemory / 4096 % FRAMES)
    && SamePages(mem, mem', root, Indices(c.virtualMemory / 4096))
  }

  /** The map the calls build: for a page the frame last given for it. */
  function LastGiven(calls: seq<Call>, page: nat, before: Frame): Frame {
    if calls == [] then before
    else
      var c := calls[|calls| - 1];
      if c.virtualMemory / 4096 % SPAN == page % SPAN then Some(c.physicalMemory / 4096 % FRAMES)
      else LastGiven(calls[..|calls| - 1], page, before)
  }

  /** The radix tree refines that map. */
  lemma {:induction false} TreeRefinesMap(mems: seq<Memory>, calls: seq<Call>, root: nat, page: nat)
    requires |mems| == |calls| + 1
    requires forall i: nat :: i < |calls| ==> IsCall(mems[i], mems[i + 1], root, calls[i])
    ensures Walk(mems[|calls|], root, Indices(page)) == LastGiven(calls, page, Walk(mems[0], root, Indices(page)))
  {
    hide Walk, Indices;
    var n := |calls|;
    if n > 0 {
      forall i: nat | i < n - 1 ensures IsCall(mems[..n][i], mems[..n][i + 1], root, calls[..n - 1][i]) {
        assert IsCall(mems[i], mems[i + 1], root, calls[i]);
      }
      TreeRefinesMap(mems[..n], calls[..n - 1], root, page);
      assert IsCall(mems[n - 1], mems[n], root, calls[n - 1]);
      IndicesDeterminePage(calls[n - 1].virtualMemory / 4096, page);
      IndicesFit(page);
    }
  }
}

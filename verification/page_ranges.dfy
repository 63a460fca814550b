/** What map_range's steps of 1000 bytes map, byte by byte
    (src/paging/page_table_manager.cpp:75-79). */
module PageRanges {
  import opened Arith
  import opened PageEntries
  import opened PageTree
  import opened PageTables

  datatype Byte = Unmapped | At(physical: nat)

  /** The physical byte behind a virtual one. */
  function Translate(mem: Memory, root: nat, a: nat): Byte {
    match Walk(mem, root, Indices(a / 4096))
    case None => Unmapped
    case Some(f) => At(f * 4096 + a % 4096)
  }

  /** The page of the last step, which may lie before the page of the last byte. */
  function LastPage(v: nat, range: nat): nat
    requires range > 0
  {
    (v + (Steps(range) - 1) * STEP) / 4096
  }

  lemma StepsIs(range: nat)
    requires range > 0
    ensures Steps(range) > 0 && (Steps(range) - 1) * STEP < range <= Steps(range) * STEP
  {
  }

  /** Every page from the first byte's to the last step's contains a step. */
  lemma PageHasStep(v: nat, range: nat, page: nat) returns (j: nat)
    requires range > 0 && v / 4096 <= page <= LastPage(v, range)
    ensures j < Steps(range) && (v + j * STEP) / 4096 == page
  {
    StepsIs(range);
    var base := page * 4096;
    j := if v >= base then 0 else (base - v + STEP - 1) / STEP;
    DivModIs(v + j * STEP, 4096, page, v + j * STEP - base);
  }

  lemma SamePageSameStep(v: nat, range: nat, j: nat, page: nat)
    requires 0 < range < 0x8000_0000 && j < Steps(range) && v / 4096 <= page <= (v + range) / 4096
    ensures StepPage(v, j) == Indices(page) <==> (v + j * STEP) / 4096 == page
  {
    StepsIs(range);
    var a := (v + j * STEP) / 4096;
    IndicesDeterminePage(a, page);
    if a % SPAN == page % SPAN {
      Close(a, page);
    }
  }

  lemma Close(a: nat, b: nat)
    requires a % SPAN == b % SPAN && a < b + SPAN && b < a + SPAN
    ensures a == b
  {
  }

  /** A byte whose page has a step is mapped to the byte as far into the physical
      range, provided both ranges start at the same offset in a page. */
  lemma ByteMapped(mem0: Memory, mem: Memory, root: nat, v: nat, p: nat, range: nat, x: nat)
    requires RangeMapped(mem0, mem, root, v, p, Steps(range)) && x < range < 0x8000_0000
    requires (v + x) / 4096 <= LastPage(v, range) && p + range <= TOP
    ensures v % 4096 == p % 4096 ==> Translate(mem, root, v + x) == At(p + x)
    ensures v % 4096 != p % 4096 ==> Translate(mem, root, v + x) != At(p + x)
  {
    hide Walk, Indices, StepPage;
    var page := (v + x) / 4096;
    var j := PageHasStep(v, range, page);
    SamePageSameStep(v, range, j, page);
    assert StepDone(mem, root, v, p, Steps(range), j);
    var k: nat :| k < Steps(range) && StepPage(v, k) == StepPage(v, j)
                  && Walk(mem, root, StepPage(v, j)) == Some((p + k * STEP) / 4096 % FRAMES);
    SamePageSameStep(v, range, k, page);
    StepsIs(range);
    FrameOf(v, p, k * STEP, x);
    FrameFits(p + k * STEP);
    assert Translate(mem, root, v + x) == At((p + k * STEP) / 4096 * 4096 + (v + x) % 4096);
  }

  lemma FrameFits(a: nat)
    requires a < TOP
    ensures a / 4096 % FRAMES == a / 4096
  {
  }

  lemma FrameOf(v: nat, p: nat, i: nat, x: nat)
    requires (v + i) / 4096 == (v + x) / 4096
    ensures v % 4096 == p % 4096 <==> (p + i) / 4096 * 4096 + (v + x) % 4096 == p + x
  {
    var a, b, c := (v + i) / 4096, (p + i) / 4096, v / 4096;
    if v % 4096 == p % 4096 {
      DivModIs(p + i, 4096, p / 4096 + a - c, (v + i) % 4096);
    } else if b * 4096 + (v + x) % 4096 == p + x {
      DivModIs(p, 4096, b - a + c, v % 4096);
    }
  }

  /** A byte behind the last step's page keeps its translation. */
  lemma ByteMissed(mem0: Memory, mem: Memory, root: nat, v: nat, p: nat, range: nat, x: nat)
    requires RangeMapped(mem0, mem, root, v, p, Steps(range)) && x < range < 0x8000_0000
    requires (v + x) / 4096 > LastPage(v, range)
    ensures Translate(mem, root, v + x) == Translate(mem0, root, v + x)
  {
    hide Walk, Indices, StepPage;
    var page := (v + x) / 4096;
    IndicesFit(page);
    forall j: nat | j < Steps(range) ensures StepPage(v, j) != Indices(page) {
      SamePageSameStep(v, range, j, page);
    }
    assert Untouched(v, Steps(range), Indices(page));
  }

  /** The translation of byte x of a range at v. */
  function ByteOf(mem: Memory, root: nat, v: nat, x: nat): Byte {
    Translate(mem, root, v + x)
  }

  /** map_range over unmapped pages maps every byte of the range to its counterpart
      exactly when both ranges start at the same offset in a page and the last
      step falls into the page of the last byte. */
  lemma RangeMappedExactly(mem0: Memory, mem: Memory, root: nat, v: nat, p: nat, range: nat)
    requires RangeMapped(mem0, mem, root, v, p, Steps(range)) && 0 < range < 0x8000_0000 && p + range <= TOP
    requires forall x: nat :: x < range ==> ByteOf(mem0, root, v, x) == Unmapped
    ensures (forall x: nat :: x < range ==> ByteOf(mem, root, v, x) == At(p + x))
            <==> v % 4096 == p % 4096 && LastPage(v, range) == (v + range - 1) / 4096
  {
    hide Walk, Indices, StepPage, RangeMapped, Translate;
    forall x: nat | x < range
      ensures ByteOf(mem, root, v, x) == At(p + x) <==> v % 4096 == p % 4096 && (v + x) / 4096 <= LastPage(v, range)
    {
      assert ByteOf(mem0, root, v, x) == Unmapped;
      if (v + x) / 4096 <= LastPage(v, range) {
        ByteMapped(mem0, mem, root, v, p, range, x);
      } else {
        ByteMissed(mem0, mem, root, v, p, range, x);
      }
    }
    forall x: nat | x < range && LastPage(v, range) == (v + range - 1) / 4096
      ensures ByteOf(mem, root, v, x) == At(p + x) <==> v % 4096 == p % 4096
    {
      PagesInOrder(v, range, x);
    }
    PagesInOrder(v, range, 0);
    assert ByteOf(mem, root, v, range - 1) == At(p + (range - 1)) <==>
      v % 4096 == p % 4096 && (v + (range - 1)) / 4096 <= LastPage(v, range);
  }

  lemma PagesInOrder(v: nat, range: nat, x: nat)
    requires x < range
    ensures LastPage(v, range) <= (v + range - 1) / 4096 && (v + x) / 4096 <= (v + range - 1) / 4096
  {
    StepsIs(range);
  }

  /** 4097 bytes from address 0 on: the steps stop at 4000, so the last byte's page
      is not reached and stays unmapped. */
  lemma LastPageMissed(mem0: Memory, mem: Memory, root: nat)
    requires RangeMapped(mem0, mem, root, 0, 0, Steps(4097))
    requires forall x: nat :: x < 4097 ==> ByteOf(mem0, root, 0, x) == Unmapped
    ensures ByteOf(mem, root, 0, 4096) == Unmapped
    ensures forall x: nat :: x < 4096 ==> ByteOf(mem, root, 0, x) == At(x)
  {
    hide Walk, Indices, StepPage, RangeMapped, Translate;
    assert Steps(4097) == 5;
    assert LastPage(0, 4097) == 0;
    assert ByteOf(mem0, root, 0, 4096) == Unmapped;
    ByteMissed(mem0, mem, root, 0, 0, 4097, 4096);
    forall x: nat | x < 4096 ensures ByteOf(mem, root, 0, x) == At(x) {
      ByteMapped(mem0, mem, root, 0, 0, 4097, x);
    }
  }
}

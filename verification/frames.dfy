/** The physical frame allocator (src/paging/page_frame_allocator.cpp:58-173):
    every call is proved to be the step frames_model.dfy says it is.

    A page count may be at most 2^19: the code multiplies an int loop counter by
    4096. Its other int counters hold if the bitmap has fewer than 2^31 bits. */
module FrameAllocator {
  import opened Bitmaps
  import opened FramesModel

  const MAX_COUNT := 0x8_0000
  const NULL: nat := 0

  class PageFrameAllocator {
    const pageBitmap: Bitmap
    var hint: nat  // page_bitmap_index
    var freeMemory: nat
    var usedMemory: nat
    var reservedMemory: nat

    ghost predicate Valid()
      reads this
    {
      && pageBitmap.Valid()
      && pageBitmap.size * 8 < 0x8000_0000
      && hint <= pageBitmap.size * 8
      && freeMemory < U64 && usedMemory < U64 && reservedMemory < U64
    }

    ghost function State(): (f: Frames)
      requires pageBitmap.Valid()
      reads this, pageBitmap.buffer
    {
      Frames(pageBitmap.size * 8, pageBitmap.Marked(), freeMemory, usedMemory, reservedMemory)
    }

    constructor (bitmap: Bitmap, memorySize: nat)
      requires bitmap.Valid() && bitmap.size * 8 < 0x8000_0000 && memorySize < U64
      ensures Valid() && pageBitmap == bitmap
      ensures State() == Frames(bitmap.size * 8, bitmap.Marked(), memorySize, 0, 0)
    {
      pageBitmap := bitmap;
      hint := 0;
      freeMemory, usedMemory, reservedMemory := memorySize, 0, 0;
    }

    method LockPage(address: nat)
      requires Valid()
      modifies this, pageBitmap.buffer
      ensures Valid() && State() == Touch(old(State()), Lock, address / FRAME)
      ensures hint == old(hint)
    {
      var index := address / FRAME;
      var marked := pageBitmap.Get(index);
      if marked { return; }
      var ok := pageBitmap.Set(index, true);
      if ok {
        freeMemory := Wrap(freeMemory - FRAME);
        usedMemory := Wrap(usedMemory + FRAME);
      }
    }

    method FreePage(address: nat)
      requires Valid()
      modifies this, pageBitmap.buffer
      ensures Valid() && State() == Touch(old(State()), Free, address / FRAME)
    {
      var index := address / FRAME;
      var marked := pageBitmap.Get(index);
      if !marked { return; }
      var ok := pageBitmap.Set(index, false);
      if ok {
        freeMemory := Wrap(freeMemory + FRAME);
        usedMemory := Wrap(usedMemory - FRAME);
        if hint > index { hint := index; }
      }
    }

    method ReservePage(address: nat)
      requires Valid()
      modifies this, pageBitmap.buffer
      ensures Valid() && State() == Touch(old(State()), Reserve, address / FRAME)
    {
      var index := address / FRAME;
      var marked := pageBitmap.Get(index);
      if marked { return; }
      var ok := pageBitmap.Set(index, true);
      if ok {
        freeMemory := Wrap(freeMemory - FRAME);
        reservedMemory := Wrap(reservedMemory + FRAME);
      }
    }

    method UnreservePage(address: nat)
      requires Valid()
      modifies this, pageBitmap.buffer
      ensures Valid() && State() == Touch(old(State()), Unreserve, address / FRAME)
    {
      var index := address / FRAME;
      var marked := pageBitmap.Get(index);
      if !marked { return; }
      var ok := pageBitmap.Set(index, false);
      if ok {
        freeMemory := Wrap(freeMemory + FRAME);
        reservedMemory := Wrap(reservedMemory - FRAME);
        if hint > index { hint := index; }
      }
    }

    method LockPages(address: nat, pageCount: nat)
      requires Valid() && pageCount <= MAX_COUNT && address + pageCount * FRAME <= U64
      modifies this, pageBitmap.buffer
      ensures Valid() && State() == TouchRange(old(State()), Lock, address / FRAME, pageCount)
    {
      for t := 0 to pageCount
        invariant Valid() && State() == TouchRange(old(State()), Lock, address / FRAME, t)
      {
        LockPage(address + t * FRAME);
      }
    }

    method FreePages(address: nat, pageCount: nat)
      requires Valid() && pageCount <= MAX_COUNT && address + pageCount * FRAME <= U64
      modifies this, pageBitmap.buffer
      ensures Valid() && State() == TouchRange(old(State()), Free, address / FRAME, pageCount)
    {
      for t := 0 to pageCount
        invariant Valid() && State() == TouchRange(old(State()), Free, address / FRAME, t)
      {
        FreePage(address + t * FRAME);
      }
    }

    method ReservePages(address: nat, pageCount: nat)
      requires Valid() && pageCount <= MAX_COUNT && address + pageCount * FRAME <= U64
      modifies this, pageBitmap.buffer
      ensures Valid() && State() == TouchRange(old(State()), Reserve, address / FRAME, pageCount)
    {
      for t := 0 to pageCount
        invariant Valid() && State() == TouchRange(old(State()), Reserve, address / FRAME, t)
      {
        ReservePage(address + t * FRAME);
      }
    }

    method UnreservePages(address: nat, pageCount: nat)
      requires Valid() && pageCount <= MAX_COUNT && address + pageCount * FRAME <= U64
      modifies this, pageBitmap.buffer
      ensures Valid() && State() == TouchRange(old(State()), Unreserve, address / FRAME, pageCount)
    {
      for t := 0 to pageCount
        invariant Valid() && State() == TouchRange(old(State()), Unreserve, address / FRAME, t)
      {
        UnreservePage(address + t * FRAME);
      }
    }

    /** The first loop of both requests: pulls the hint down to a free index below it. */
    method LowerHint()
      requires Valid()
      modifies `hint
      ensures Valid() && forall y: nat :: y < hint ==> y in pageBitmap.Marked()
    {
      var i := 0;
      while i < hint
        invariant i <= hint == old(hint)
        invariant forall y: nat :: y < i ==> y in pageBitmap.Marked()
      {
        var marked := pageBitmap.Get(i);
        if !marked {
          hint := i;
          break;
        }
        i := i + 1;
      }
    }

    /** The lowest free frame, whatever the hint. NULL also names frame 0. */
    method RequestPage() returns (address: nat)
      requires Valid()
      modifies this, pageBitmap.buffer
      ensures Valid()
      ensures var x := Lowest(old(State()).marked, old(State()).limit, 0);
        if x < old(State()).limit then address == x * FRAME && State() == Touch(old(State()), Lock, x)
        else address == NULL && State() == old(State())
    {
      hide Bitmap.Marked, MarkedIn;
      ghost var marked := pageBitmap.Marked();
      LowerHint();
      var x := hint;
      while x < pageBitmap.size * 8
        invariant x <= pageBitmap.size * 8 && State() == old(State()) && Valid()
        invariant forall y: nat :: y < x ==> y in marked
      {
        var b := pageBitmap.Get(x);
        if !b {
          LowestIs(marked, pageBitmap.size * 8, x);
          LockPage(x * FRAME);
          return x * FRAME;
        }
        x := x + 1;
      }
      LowestIs(marked, pageBitmap.size * 8, x);
      address := NULL;
    }

    method RunIsFree(x: nat, amount: nat) returns (b: bool)
      requires Valid()
      ensures b <==> RunFree(pageBitmap.Marked(), x, amount)
    {
      for i := 0 to amount
        invariant RunFree(pageBitmap.Marked(), x, i)
      {
        var m := pageBitmap.Get(x + i);
        if m { return false; }
      }
      b := true;
    }

    /** A run of free frames found by the probing of request_pages, all locked. */
    method RequestPages(amount: nat) returns (address: nat)
      requires Valid() && amount <= MAX_COUNT
      modifies this, pageBitmap.buffer
      ensures Valid()
      ensures var x := Probe(old(State()).marked, old(State()).limit, amount, 0);
        if x < old(State()).limit then address == x * FRAME && State() == TouchRange(old(State()), Lock, x, amount)
        else address == NULL && State() == old(State())
    {
      hide Bitmap.Marked, MarkedIn, TouchRange, Probe, RunFree;
      ghost var marked, limit := pageBitmap.Marked(), pageBitmap.size * 8;
      LowerHint();
      var x := hint;
      assert pageBitmap.Marked() == marked;
      ProbeSkipsMarked(marked, limit, amount, 0, x);
      while x < pageBitmap.size * 8
        invariant State() == old(State()) && Valid()
        invariant Probe(marked, limit, amount, 0) == Probe(marked, limit, amount, x)
        decreases pageBitmap.size * 8 - x
      {
        ProbeFrom(marked, limit, amount, x);
        var b := pageBitmap.Get(x);
        if !b {
          var free := RunIsFree(x, amount);
          if free {
            LockPages(x * FRAME, amount);
            return x * FRAME;
          }
          x := x + amount;
        }
        x := x + 1;
      }
      ProbeFrom(marked, limit, amount, x);
      address := NULL;
    }
  }

  lemma LowestIs(marked: set<nat>, limit: nat, x: nat)
    requires x <= limit && (x < limit ==> x !in marked) && forall y: nat :: y < x ==> y in marked
    ensures Lowest(marked, limit, 0) == x
  {
    var r := Lowest(marked, limit, 0);
  }
}

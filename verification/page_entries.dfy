/** Page-table entries and the split of a virtual address
    (src/paging/paging.cpp, src/paging/page_map_indexer.cpp). The masks of the
    code are contiguous, so a conjunction with one is a quotient or remainder. */
module PageEntries {
  import opened Arith

  const U64 := 0x1_0000_0000_0000_0000
  const FRAMES := 0x100_0000_0000  // 2^40 frame numbers fit an entry
  const TOP := 0x10_0000_0000_0000  // bits 52 and up are flags
  const PRESENT: nat := 0
  const READ_WRITE: nat := 1

  function Bit(v: nat, k: nat): nat {
    v / Pow2(k) % 2
  }

  lemma FlagFits(v: nat, k: nat)
    ensures Bit(v, k) * Pow2(k) <= v
  {
    if v < Pow2(k) { DivModIs(v, Pow2(k), 0, v); }
  }

  /** set_flag. */
  function WithFlag(v: nat, k: nat, enabled: bool): nat {
    FlagFits(v, k);
    v - Bit(v, k) * Pow2(k) + if enabled then Pow2(k) else 0
  }

  // Bit k of a number is bit k - 1 of its half.

  lemma HalfBit(v: nat, k: nat)
    requires k > 0
    ensures Bit(v, k) == Bit(v / 2, k - 1)
  {
    var p, h := Pow2(k - 1), v / 2;
    DivModIs(v, Pow2(k), h / p, 2 * (h % p) + v % 2);
  }

  lemma HalfFlag(v: nat, k: nat, enabled: bool)
    requires k > 0
    ensures WithFlag(v, k, enabled) == 2 * WithFlag(v / 2, k - 1, enabled) + v % 2
  {
    HalfBit(v, k);
    assert Bit(v, k) == 0 || Bit(v, k) == 1;
  }

  /** set_flag puts the one bit to the value asked for and keeps every other bit. */
  lemma {:induction false} FlagBits(v: nat, k: nat, enabled: bool, j: nat)
    ensures Bit(WithFlag(v, k, enabled), j) == if j == k then (if enabled then 1 else 0) else Bit(v, j)
    decreases k
  {
    hide WithFlag, Bit;
    var w := WithFlag(v, k, enabled);
    LowestBit(v, enabled);
    LowestBit(w, enabled);
    if j > 0 {
      HalfBit(w, j);
      HalfBit(v, j);
    }
    if k > 0 {
      HalfFlag(v, k, enabled);
      if j > 0 { FlagBits(v / 2, k - 1, enabled, j - 1); }
    }
  }

  lemma LowestBit(v: nat, enabled: bool)
    ensures Bit(v, 0) == v % 2
    ensures WithFlag(v, 0, enabled) == v / 2 * 2 + if enabled then 1 else 0
  {
    assert Pow2(0) == 1;
  }

  function Address(v: nat): nat {
    v / 4096 % FRAMES
  }

  /** set_address: 40 bits of frame number, the 12 bits on either side kept. */
  function WithAddress(v: nat, address: nat): nat {
    v % 4096 + address % FRAMES * 4096 + v / TOP * TOP
  }

  /** get_flag's precedence makes it test bit 0, whatever the flag. */
  predicate FlagRead(v: nat, k: nat) {
    v % 2 == 1
  }

  /** So it reads a flag right, for every entry, only if the flag is present. */
  lemma FlagReadIsRightForPresentOnly(k: nat)
    ensures (forall v: nat :: FlagRead(v, k) <==> Bit(v, k) == 1) <==> k == PRESENT
  {
    if k != PRESENT {
      assert Pow2(k) >= 2;
      assert FlagRead(1, k) && Bit(1, k) == 0;
    } else {
      assert Pow2(0) == 1;
    }
  }

  /** A table entry as map_memory leaves it. */
  function Linked(v: nat, address: nat): nat {
    WithFlag(WithFlag(WithAddress(v, address), PRESENT, true), READ_WRITE, true)
  }

  /** The parts of an entry: flags above, frame number, flags below. */
  function Pack(high: nat, frame: nat, low: nat): nat {
    high * TOP + frame * 4096 + low
  }

  lemma PackParts(high: nat, frame: nat, low: nat)
    requires frame < FRAMES && low < 4096
    ensures Pack(high, frame, low) % 4096 == low && Address(Pack(high, frame, low)) == frame
    ensures Pack(high, frame, low) / TOP == high
    ensures Pack(high, frame, low) / 4096 == high * FRAMES + frame
  {
    var v := Pack(high, frame, low);
    DivModIs(v, 4096, high * FRAMES + frame, low);
    DivModIs(high * FRAMES + frame, FRAMES, high, frame);
    DivModIs(v, TOP, high, frame * 4096 + low);
  }

  /** The low flags with present and read/write set. */
  function Enabled(low: nat): nat {
    low - low % 4 + 3
  }

  /** Entry, address and flags: what map_memory writes is exactly the frame
      number, present and writable, with all other flags kept. */
  lemma LinkedIs(v: nat, address: nat)
    requires v < U64
    ensures Linked(v, address) == Pack(v / TOP, address % FRAMES, Enabled(v % 4096))
    ensures Linked(v, address) < U64
    ensures Address(Linked(v, address)) == address % FRAMES
    ensures FlagRead(Linked(v, address), PRESENT) && Bit(Linked(v, address), READ_WRITE) == 1
  {
    hide WithFlag, Bit, Pack, Enabled, FlagRead, Address;
    var high, frame, low := v / TOP, address % FRAMES, v % 4096;
    var one := low - low % 2 + 1;
    LowestTwo(low);
    AddressIs(v, address);
    PackFlags(high, frame, low);
    PackFlags(high, frame, one);
    PackFlags(high, frame, Enabled(low));
    PackParts(high, frame, Enabled(low));
    PackFits(v, high, frame, Enabled(low));
  }

  lemma LowestTwo(low: nat)
    requires low < 4096
    ensures var one := low - low % 2 + 1; one < 4096 && one - one / 2 % 2 * 2 + 2 == Enabled(low)
    ensures Enabled(low) < 4096 && Enabled(low) % 2 == 1 && Enabled(low) / 2 % 2 == 1
  {
    var q, r, b := low / 4, low / 2 % 2, low % 2;
    DivModIs(low / 2, 2, q, r);
    assert low == 4 * q + 2 * r + b;
    DivModIs(low - b + 1, 2, 2 * q + r, 1);
    DivModIs(4 * q + 3, 2, 2 * q + 1, 1);
  }

  lemma AddressIs(v: nat, address: nat)
    ensures WithAddress(v, address) == Pack(v / TOP, address % FRAMES, v % 4096)
  {
  }

  lemma PackFits(v: nat, high: nat, frame: nat, low: nat)
    requires v < U64 && high == v / TOP && frame < FRAMES && low < 4096
    ensures Pack(high, frame, low) < U64
  {
    assert high < 4096;
  }

  /** Setting one of the two low flags of a packed entry changes its low part only. */
  lemma PackFlags(high: nat, frame: nat, low: nat)
    requires frame < FRAMES && low < 4096
    ensures WithFlag(Pack(high, frame, low), PRESENT, true) == Pack(high, frame, low - low % 2 + 1)
    ensures WithFlag(Pack(high, frame, low), READ_WRITE, true) == Pack(high, frame, low - low / 2 % 2 * 2 + 2)
    ensures FlagRead(Pack(high, frame, low), PRESENT) <==> low % 2 == 1
    ensures Bit(Pack(high, frame, low), READ_WRITE) == low / 2 % 2
  {
    hide WithFlag, Bit;
    var v := Pack(high, frame, low);
    var q := high * (TOP / 4) + frame * 1024 + low / 4;
    DivModIs(v, 2, q * 2 + low / 2 % 2, low % 2);
    DivModIs(v / 2, 2, q, low / 2 % 2);
    LowFlags(v);
  }

  /** present and read/write are the two lowest bits. */
  lemma LowFlags(v: nat)
    ensures WithFlag(v, PRESENT, true) == v - v % 2 + 1
    ensures WithFlag(v, READ_WRITE, true) == v - v / 2 % 2 * 2 + 2
    ensures Bit(v, READ_WRITE) == v / 2 % 2
  {
    assert Pow2(0) == 1 && Pow2(1) == 2;
  }

  class PageDirectoryEntry {
    var value: nat

    constructor (v: nat)
      requires v < U64
      ensures value == v
    {
      value := v;
    }

    method SetFlag(flag: nat, enabled: bool)
      modifies this
      ensures value == WithFlag(old(value), flag, enabled)
      ensures forall j: nat :: Bit(value, j) == if j == flag then (if enabled then 1 else 0) else Bit(old(value), j)
    {
      var bitSelector := Pow2(flag);
      FlagFits(value, flag);
      ghost var was := value;
      var v := value - value / bitSelector % 2 * bitSelector;
      if enabled {
        v := v + bitSelector;
      }
      value := v;
      forall j: nat ensures Bit(value, j) == if j == flag then (if enabled then 1 else 0) else Bit(was, j) {
        FlagBits(was, flag, enabled, j);
      }
    }

    predicate GetFlag(flag: nat)
      reads this
    {
      FlagRead(value, flag)
    }

    function GetAddress(): nat
      reads this
    {
      Address(value)
    }

    method SetAddress(address: nat)
      modifies this
      ensures value == WithAddress(old(value), address)
    {
      var a := address % FRAMES;
      var v := value % 4096 + value / TOP * TOP;
      value := v + a * 4096;
    }
  }

  // ----- the four indices -----

  const SPAN := 0x10_0000_0000  // pages in a 48-bit address space

  /** The four 9-bit indices of a page number, the topmost first. */
  function Indices(page: nat): seq<nat> {
    [page / 0x800_0000 % 512, page / 0x4_0000 % 512, page / 512 % 512, page % 512]
  }

  /** The indices determine the 48-bit page, and the other way round. */
  lemma IndicesDeterminePage(a: nat, b: nat)
    ensures Indices(a) == Indices(b) <==> a % SPAN == b % SPAN
  {
    Digits(a);
    Digits(b);
    if Indices(a) == Indices(b) {
      assert Indices(a)[0] == Indices(b)[0] && Indices(a)[1] == Indices(b)[1] && Indices(a)[2] == Indices(b)[2] && Indices(a)[3] == Indices(b)[3];
    } else if a % SPAN == b % SPAN {
      DigitsOf(a);
      DigitsOf(b);
    }
  }

  lemma Digits(a: nat)
    ensures a % SPAN == Indices(a)[0] * 0x800_0000 + Indices(a)[1] * 0x4_0000 + Indices(a)[2] * 512 + Indices(a)[3]
  {
    var b := a / 512;
    var c := b / 512;
    var d := c / 512;
    DivModIs(a, 0x4_0000, c, b % 512 * 512 + a % 512);
    DivModIs(a, 0x800_0000, d, c % 512 * 0x4_0000 + b % 512 * 512 + a % 512);
    DivModIs(a, SPAN, d / 512, d % 512 * 0x800_0000 + c % 512 * 0x4_0000 + b % 512 * 512 + a % 512);
  }

  /** The indices of a number written in four 9-bit digits. */
  lemma IndicesOfDigits(d3: nat, d2: nat, d1: nat, d0: nat)
    requires d3 < 512 && d2 < 512 && d1 < 512 && d0 < 512
    ensures Indices(d3 * 0x800_0000 + d2 * 0x4_0000 + d1 * 512 + d0) == [d3, d2, d1, d0]
  {
    var r := d3 * 0x800_0000 + d2 * 0x4_0000 + d1 * 512 + d0;
    DivModIs(r, 512, d3 * 0x4_0000 + d2 * 512 + d1, d0);
    DivModIs(d3 * 0x4_0000 + d2 * 512 + d1, 512, d3 * 512 + d2, d1);
    DivModIs(d3 * 512 + d2, 512, d3, d2);
    DivModIs(d3, 512, 0, d3);
    DivModIs(r, 0x4_0000, d3 * 512 + d2, d1 * 512 + d0);
    DivModIs(r, 0x800_0000, d3, d2 * 0x4_0000 + d1 * 512 + d0);
  }

  lemma DigitsOf(a: nat)
    ensures Indices(a) == Indices(a % SPAN)
  {
    var i := Indices(a);
    assert i == [i[0], i[1], i[2], i[3]];
    Digits(a);
    IndicesOfDigits(i[0], i[1], i[2], i[3]);
  }

  class PageMapIndexer {
    var pdpI: nat
    var pdI: nat
    var ptI: nat
    var pI: nat

    constructor (virtualAddress: nat)
      ensures [pdpI, pdI, ptI, pI] == Indices(virtualAddress / 4096)
    {
      var v := virtualAddress / 4096;
      ghost var page := v;
      pI := v % 512;
      v := v / 512;
      ptI := v % 512;
      v := v / 512;
      DivModIs(page, 0x4_0000, v, page / 512 % 512 * 512 + page % 512);
      pdI := v % 512;
      v := v / 512;
      DivModIs(page, 0x800_0000, v, page / 0x4_0000 % 512 * 0x4_0000 + page / 512 % 512 * 512 + page % 512);
      pdpI := v % 512;
    }
  }
}

/** The file allocation table as an array of entries, packed in 12, 16 or 32
    bits over the sectors of the first FAT (src/fs/fat32/ff.cpp get_fat, put_fat). */
module FatTable {
  import opened Arith
  import opened FatVolume

  function EntryLimit(t: FatType): nat {
    match t
    case Fat12 => 0x1000
    case Fat16 => 0x1_0000
    case Fat32 => 0x1000_0000
  }

  /** A value as an entry of this width keeps it. */
  function Truncate(t: FatType, val: nat): nat {
    val % EntryLimit(t)
  }

  function FatByte(g: Geometry, view: seq<Sector>, k: nat): Byte
    requires GeometryOk(g, |view|) && k < g.fsize * SECTOR_SIZE
  {
    view[g.fatbase + k / SECTOR_SIZE][k % SECTOR_SIZE]
  }

  /** Byte offset of entry c in the table. */
  function EntryOffset(t: FatType, c: nat): nat {
    match t
    case Fat12 => c + c / 2
    case Fat16 => c * 2
    case Fat32 => c * 4
  }

  function EntryWidth(t: FatType): nat {
    if t.Fat32? then 4 else 2
  }

  /** All bytes an entry is spread over lie inside the first FAT. */
  lemma EntryInside(g: Geometry, sectors: nat, c: nat)
    requires GeometryOk(g, sectors) && c < g.nFatent
    ensures EntryOffset(g.fatType, c) + EntryWidth(g.fatType) <= g.fsize * SECTOR_SIZE
  {
  }

  function Word(b0: Byte, b1: Byte): nat {
    (b0 as int) + 0x100 * (b1 as int)
  }

  function Dword(b0: Byte, b1: Byte, b2: Byte, b3: Byte): nat {
    b0 + 0x100 * b1 + 0x1_0000 * b2 + 0x100_0000 * b3
  }

  function Entry(g: Geometry, view: seq<Sector>, c: nat): (e: nat)
    requires GeometryOk(g, |view|) && c < g.nFatent
    ensures e < EntryLimit(g.fatType)
  {
    EntryInside(g, |view|, c);
    var k := EntryOffset(g.fatType, c);
    var w := Word(FatByte(g, view, k), FatByte(g, view, k + 1));
    match g.fatType
    case Fat12 => if c % 2 == 1 then w / 0x10 else w % 0x1000
    case Fat16 => w
    case Fat32 => Dword(FatByte(g, view, k), FatByte(g, view, k + 1),
                        FatByte(g, view, k + 2), FatByte(g, view, k + 3)) % 0x1000_0000
  }

  /** The table as a sequence of entries. */
  function Table(g: Geometry, view: seq<Sector>): (fat: seq<nat>)
    requires GeometryOk(g, |view|)
    ensures |fat| == g.nFatent
    ensures forall c :: 0 <= c < g.nFatent ==> fat[c] == Entry(g, view, c)
  {
    seq(g.nFatent, c requires 0 <= c < g.nFatent => Entry(g, view, c))
  }

  /** No sector outside the FAT area differs. */
  ghost predicate SameOutsideFat(g: Geometry, v: seq<Sector>, v': seq<Sector>) {
    |v'| == |v| && forall s :: 0 <= s < |v| && !InFatArea(g, s) ==> v'[s] == v[s]
  }

  lemma SameOutsideFatRefl(g: Geometry, v: seq<Sector>)
    ensures SameOutsideFat(g, v, v)
  {
  }

  lemma SameOutsideFatTrans(g: Geometry, v: seq<Sector>, v1: seq<Sector>, v2: seq<Sector>)
    requires SameOutsideFat(g, v, v1) && SameOutsideFat(g, v1, v2)
    ensures SameOutsideFat(g, v, v2)
  {
  }

  /** v' differs from v only in the bytes of the first FAT from lo on, which now
      hold data, and in the sectors of the FAT area those bytes live in. */
  ghost predicate BytesUpdated(g: Geometry, v: seq<Sector>, v': seq<Sector>, lo: nat, data: seq<Byte>)
    requires GeometryOk(g, |v|)
  {
    && SameOutsideFat(g, v, v')
    && (forall k :: 0 <= k < g.fsize * SECTOR_SIZE ==>
          FatByte(g, v', k) == if lo <= k < lo + |data| then data[k - lo] else FatByte(g, v, k))
  }

  lemma UpdatedOutside(g: Geometry, v: seq<Sector>, v': seq<Sector>, lo: nat, data: seq<Byte>)
    requires GeometryOk(g, |v|) && BytesUpdated(g, v, v', lo, data)
    ensures SameOutsideFat(g, v, v')
  {
  }

  lemma StoreUpdatesBytes(g: Geometry, v: seq<Sector>, i: nat, o: nat, data: seq<Byte>)
    requires GeometryOk(g, |v|) && i < g.fsize && o + |data| <= SECTOR_SIZE
    ensures BytesUpdated(g, v, Store(g, v, g.fatbase + i, Patch(v[g.fatbase + i], o, data)), i * SECTOR_SIZE + o, data)
  {
    FirstFatIsInterval(g, |v|, g.fatbase + i);
    var v' := Store(g, v, g.fatbase + i, Patch(v[g.fatbase + i], o, data));
    forall k | 0 <= k < g.fsize * SECTOR_SIZE
      ensures FatByte(g, v', k) ==
        if i * SECTOR_SIZE + o <= k < i * SECTOR_SIZE + o + |data| then data[k - (i * SECTOR_SIZE + o)] else FatByte(g, v, k)
    {
      assert k / SECTOR_SIZE < g.fsize;
      if k / SECTOR_SIZE == i {
        assert k == i * SECTOR_SIZE + k % SECTOR_SIZE;
      }
    }
  }

  lemma BytesUpdatedTwice(g: Geometry, v: seq<Sector>, v1: seq<Sector>, v2: seq<Sector>, k: nat, b0: Byte, b1: Byte)
    requires GeometryOk(g, |v|) && k + 1 < g.fsize * SECTOR_SIZE
    requires BytesUpdated(g, v, v1, k, [b0])
    requires BytesUpdated(g, v1, v2, k + 1, [b1])
    ensures BytesUpdated(g, v, v2, k, [b0, b1])
  {
  }

  lemma NextByteKept(g: Geometry, v: seq<Sector>, v1: seq<Sector>, k: nat, data: seq<Byte>)
    requires GeometryOk(g, |v|) && |data| == 1 && k + 1 < g.fsize * SECTOR_SIZE && BytesUpdated(g, v, v1, k, data)
    ensures |v1| == |v| && FatByte(g, v1, k + 1) == FatByte(g, v, k + 1)
  {
    hide FatByte;
  }

  /** First byte of a 12-bit entry: an odd entry owns its high nibble only. */
  function First12(c: nat, val: nat, p: Byte): Byte {
    if c % 2 == 1 then p % 0x10 + val % 0x10 * 0x10 else val % 0x100
  }

  /** Second byte of a 12-bit entry: an even entry owns its low nibble only. */
  function Second12(c: nat, val: nat, p: Byte): Byte {
    if c % 2 == 1 then val / 0x10 % 0x100 else p / 0x10 * 0x10 + val / 0x100 % 0x10
  }

  function WordBytes(val: nat): (b: seq<Byte>)
    ensures |b| == 2
  {
    [val % 0x100, val / 0x100 % 0x100]
  }

  function DwordBytes(val: nat): (b: seq<Byte>)
    ensures |b| == 4
  {
    [val % 0x100, val / 0x100 % 0x100, val / 0x100 / 0x100 % 0x100, val / 0x100 / 0x100 / 0x100 % 0x100]
  }

  /** ld_dword after st_dword. */
  lemma DwordRoundTrip(val: nat)
    requires val < U32
    ensures var b := DwordBytes(val); Dword(b[0], b[1], b[2], b[3]) == val && b[3] == val / 0x100_0000
  {
    var q1 := val / 0x100;
    var q2 := q1 / 0x100;
    var q3 := q2 / 0x100;
    assert q3 < 0x100 && q3 % 0x100 == q3;
    assert val == val % 0x100 + 0x100 * (q1 % 0x100 + 0x100 * (q2 % 0x100 + 0x100 * q3));
  }

  /** The bytes put_fat leaves at the entry's offset. */
  function EntryBytes(g: Geometry, view: seq<Sector>, c: nat, val: nat): (b: seq<Byte>)
    requires GeometryOk(g, |view|) && c < g.nFatent && val < U32
    ensures |b| == EntryWidth(g.fatType)
  {
    EntryInside(g, |view|, c);
    var k := EntryOffset(g.fatType, c);
    match g.fatType
    case Fat12 => [First12(c, val, FatByte(g, view, k)), Second12(c, val, FatByte(g, view, k + 1))]
    case Fat16 => WordBytes(val)
    case Fat32 => DwordBytes(val % 0x1000_0000 + FatByte(g, view, k + 3) / 0x10 * 0x1000_0000)
  }

  /** A 12-bit entry from its two bytes. */
  function Unpack12(c: nat, b0: Byte, b1: Byte): nat {
    if c % 2 == 1 then Word(b0, b1) / 0x10 else Word(b0, b1) % 0x1000
  }

  lemma LowDigits12(val: nat)
    ensures val % 0x1000 == val % 0x10 + 0x10 * (val / 0x10 % 0x100)
  {
    var q := val / 0x10;
    DivModIs(val, 0x1000, q / 0x100, val % 0x10 + 0x10 * (q % 0x100));
  }

  lemma LowBytes12(val: nat)
    ensures val % 0x1000 == val % 0x100 + 0x100 * (val / 0x100 % 0x10)
  {
    var q := val / 0x100;
    DivModIs(val, 0x1000, q / 0x10, val % 0x100 + 0x100 * (q % 0x10));
  }

  lemma Pack12Odd(low: nat, high: nat, keep: nat)
    requires low < 0x10 && high < 0x100 && keep < 0x10
    ensures (keep + low * 0x10 + 0x100 * high) / 0x10 == low + 0x10 * high
  {
    DivModIs(keep + low * 0x10 + 0x100 * high, 0x10, low + 0x10 * high, keep);
  }

  lemma Pack12Even(low: nat, high: nat, keep: nat)
    requires low < 0x100 && high < 0x10 && keep < 0x10
    ensures (low + 0x100 * (keep * 0x10 + high)) % 0x1000 == low + 0x100 * high
  {
    DivModIs(low + 0x100 * (keep * 0x10 + high), 0x1000, keep, low + 0x100 * high);
  }

  lemma Pack12(c: nat, val: nat, p0: Byte, p1: Byte)
    ensures Unpack12(c, First12(c, val, p0), Second12(c, val, p1)) == val % 0x1000
  {
    if c % 2 == 1 {
      LowDigits12(val);
      Pack12Odd(val % 0x10, val / 0x10 % 0x100, p0 % 0x10);
    } else {
      LowBytes12(val);
      Pack12Even(val % 0x100, val / 0x100 % 0x10, p1 / 0x10);
    }
  }

  /** The low nibble of the byte an odd entry shares is left alone ... */
  lemma SharedLow(low: nat, p: Byte, q: Byte)
    requires low < 0x10
    ensures (q as int + 0x100 * (p % 0x10 + low * 0x10)) % 0x1000 == (q as int + 0x100 * (p as int)) % 0x1000
  {
    var keep: nat := p % 0x10;
    DivModIs(q as int + 0x100 * (keep + low * 0x10), 0x1000, low, q as int + 0x100 * keep);
    DivModIs(q as int + 0x100 * (p as int), 0x1000, p / 0x10, q as int + 0x100 * keep);
  }

  /** ... and so is the high nibble of the byte an even entry shares. */
  lemma SharedHigh(high: nat, p: Byte, q: Byte)
    requires high < 0x10
    ensures (p / 0x10 * 0x10 + high + 0x100 * (q as int)) / 0x10 == (p as int + 0x100 * (q as int)) / 0x10
  {
    var keep: nat := p / 0x10;
    DivModIs(keep * 0x10 + high + 0x100 * (q as int), 0x10, keep + 0x10 * (q as int), high);
    DivModIs(p as int + 0x100 * (q as int), 0x10, keep + 0x10 * (q as int), p % 0x10);
  }

  /** A byte shared by two entries keeps the neighbour's nibble. */
  lemma SharedByte12(c: nat, d: nat, val: nat, p: Byte, q: Byte)
    requires c % 2 == 1 ==> d % 2 == 0
    requires c % 2 == 0 ==> d % 2 == 1
    ensures c % 2 == 1 ==> Unpack12(d, q, First12(c, val, p)) == Unpack12(d, q, p)
    ensures c % 2 == 0 ==> Unpack12(d, Second12(c, val, p), q) == Unpack12(d, p, q)
  {
    if c % 2 == 1 {
      SharedLow(val % 0x10, p, q);
    } else {
      SharedHigh(val / 0x100 % 0x10, p, q);
    }
  }

  /** Writing the low 28 bits keeps the nibble above them. */
  lemma Pack32(val: nat, top: nat)
    requires val < U32 && top < 0x10
    ensures var b := DwordBytes(val % 0x1000_0000 + top * 0x1000_0000);
            Dword(b[0], b[1], b[2], b[3]) % 0x1000_0000 == val % 0x1000_0000 && b[3] / 0x10 == top
  {
    var low := val % 0x1000_0000;
    var x := low + top * 0x1000_0000;
    DwordRoundTrip(x);
    var l3 := low / 0x100_0000;
    DivModIs(x, 0x1000_0000, top, low);
    DivModIs(x, 0x100_0000, l3 + top * 0x10, low % 0x100_0000);
    DivModIs(l3 + top * 0x10, 0x10, top, l3);
  }

  /** Read over write: the written entry reads back truncated to its width and
      no other entry changes, not even one that shares a byte with it. */
  lemma EntryReadOverWrite(g: Geometry, v: seq<Sector>, v': seq<Sector>, c: nat, val: nat, d: nat)
    requires GeometryOk(g, |v|) && c < g.nFatent && d < g.nFatent && val < U32
    requires BytesUpdated(g, v, v', EntryOffset(g.fatType, c), EntryBytes(g, v, c, val))
    ensures Entry(g, v', d) == if d == c then Truncate(g.fatType, val) else Entry(g, v, d)
  {
    match g.fatType
    case Fat12 => ReadOverWrite12(g, v, v', c, val, d);
    case Fat16 => ReadOverWrite16(g, v, v', c, val, d);
    case Fat32 => ReadOverWrite32(g, v, v', c, val, d);
  }

  lemma ReadOverWrite16(g: Geometry, v: seq<Sector>, v': seq<Sector>, c: nat, val: nat, d: nat)
    requires GeometryOk(g, |v|) && g.fatType == Fat16 && c < g.nFatent && d < g.nFatent && val < U32
    requires BytesUpdated(g, v, v', EntryOffset(Fat16, c), EntryBytes(g, v, c, val))
    ensures Entry(g, v', d) == if d == c then Truncate(Fat16, val) else Entry(g, v, d)
  {
    hide FatByte;
    EntryInside(g, |v|, c);
    EntryInside(g, |v|, d);
    if d == c {
      DivModIs(val, 0x1_0000, val / 0x100 / 0x100, val % 0x100 + 0x100 * (val / 0x100 % 0x100));
    }
  }

  lemma ReadOverWrite32(g: Geometry, v: seq<Sector>, v': seq<Sector>, c: nat, val: nat, d: nat)
    requires GeometryOk(g, |v|) && g.fatType == Fat32 && c < g.nFatent && d < g.nFatent && val < U32
    requires BytesUpdated(g, v, v', EntryOffset(Fat32, c), EntryBytes(g, v, c, val))
    ensures Entry(g, v', d) == if d == c then Truncate(Fat32, val) else Entry(g, v, d)
  {
    hide FatByte;
    hide DwordBytes;
    hide Dword;
    EntryInside(g, |v|, c);
    EntryInside(g, |v|, d);
    if d == c {
      Pack32(val, FatByte(g, v, 4 * c + 3) / 0x10);
    }
  }

  lemma ReadOverWrite12(g: Geometry, v: seq<Sector>, v': seq<Sector>, c: nat, val: nat, d: nat)
    requires GeometryOk(g, |v|) && g.fatType == Fat12 && c < g.nFatent && d < g.nFatent && val < U32
    requires BytesUpdated(g, v, v', EntryOffset(Fat12, c), EntryBytes(g, v, c, val))
    ensures Entry(g, v', d) == if d == c then Truncate(Fat12, val) else Entry(g, v, d)
  {
    hide FatByte;
    EntryInside(g, |v|, c);
    EntryInside(g, |v|, d);
    var k, j := EntryOffset(Fat12, c), EntryOffset(Fat12, d);
    var p0, p1 := FatByte(g, v, k), FatByte(g, v, k + 1);
    assert Entry(g, v', d) == Unpack12(d, FatByte(g, v', j), FatByte(g, v', j + 1));
    assert Entry(g, v, d) == Unpack12(d, FatByte(g, v, j), FatByte(g, v, j + 1));
    if d == c {
      Pack12(c, val, p0, p1);
    } else if c % 2 == 1 && d == c - 1 {
      SharedByte12(c, d, val, p0, FatByte(g, v, j));
    } else if c % 2 == 0 && d == c + 1 {
      SharedByte12(c, d, val, p1, FatByte(g, v, j + 1));
    }
  }

  /** On a 32-bit volume the reserved top nibble of every entry survives. */
  lemma TopNibblesSurvive(g: Geometry, v: seq<Sector>, v': seq<Sector>, c: nat, val: nat, d: nat)
    requires GeometryOk(g, |v|) && g.fatType == Fat32 && c < g.nFatent && d < g.nFatent && val < U32
    requires BytesUpdated(g, v, v', EntryOffset(Fat32, c), EntryBytes(g, v, c, val))
    ensures FatByte(g, v', 4 * d + 3) / 0x10 == FatByte(g, v, 4 * d + 3) / 0x10
  {
    hide FatByte;
    EntryInside(g, |v|, c);
    EntryInside(g, |v|, d);
    if d == c {
      Pack32(val, FatByte(g, v, 4 * c + 3) / 0x10);
    }
  }

  /** The end mark 0xFFFFFFFF reads back as a value no cluster number reaches. */
  lemma EndMarkReadsAsEnd(g: Geometry, sectors: nat)
    requires GeometryOk(g, sectors)
    ensures Truncate(g.fatType, 0xFFFF_FFFF) >= g.nFatent
  {
    assert 0xFFFF_FFFF % 0x1000 == 0xFFF;
    assert 0xFFFF_FFFF % 0x1_0000 == 0xFFFF;
    assert 0xFFFF_FFFF % 0x1000_0000 == 0xFFF_FFFF;
  }

  /** The result codes that can arise: the disk does not fail. */
  datatype FResult = FR_OK | FR_INT_ERR | FR_DENIED

  /** A 16- or 32-bit entry never straddles a sector boundary, and the sector
      that the code computes from the cluster number is that of its bytes. */
  lemma WideEntryAddress(c: nat)
    ensures 2 * c / SECTOR_SIZE == c / (SECTOR_SIZE / 2) && 2 * c % SECTOR_SIZE + 2 <= SECTOR_SIZE
    ensures 4 * c / SECTOR_SIZE == c / (SECTOR_SIZE / 4) && 4 * c % SECTOR_SIZE + 4 <= SECTOR_SIZE
  {
    assert 2 * c == SECTOR_SIZE * (c / 256) + 2 * (c % 256);
    assert 4 * c == SECTOR_SIZE * (c / 128) + 4 * (c % 128);
  }

  lemma ByteInSector(g: Geometry, v: seq<Sector>, k: nat, j: nat)
    requires GeometryOk(g, |v|) && k + j < g.fsize * SECTOR_SIZE && k % SECTOR_SIZE + j < SECTOR_SIZE
    ensures FatByte(g, v, k + j) == v[g.fatbase + k / SECTOR_SIZE][k % SECTOR_SIZE + j]
  {
  }

  /** Bring n bytes of the first FAT into the window and read them. */
  method FetchFatBytes(fs: FatFs, k: nat, n: nat) returns (b: seq<Byte>)
    requires fs.Valid() && 1 <= n && k + n <= fs.g.fsize * SECTOR_SIZE && k % SECTOR_SIZE + n <= SECTOR_SIZE
    modifies fs`disk, fs`wflag, fs`winsect, fs.win
    ensures fs.Valid() && fs.View() == old(fs.View())
    ensures fs.winsect == fs.g.fatbase + k / SECTOR_SIZE && fs.win[..] == fs.View()[fs.winsect]
    ensures WindowInFat(fs)
    ensures |b| == n && forall j :: 0 <= j < n ==> b[j] == FatByte(fs.g, fs.View(), k + j)
    ensures old(Mirrored(fs.g, fs.disk)) ==> Mirrored(fs.g, fs.disk)
  {
    FirstFatIsInterval(fs.g, |fs.disk|, fs.g.fatbase + k / SECTOR_SIZE);
    MoveWindow(fs, fs.g.fatbase + k / SECTOR_SIZE);
    b := fs.win[k % SECTOR_SIZE..k % SECTOR_SIZE + n];
    ghost var v := fs.View();
    forall j | 0 <= j < n ensures b[j] == FatByte(fs.g, v, k + j) {
      ByteInSector(fs.g, v, k, j);
      assert b[j] == fs.win[..][k % SECTOR_SIZE + j];
    }
  }

  method Get12(fs: FatFs, clst: nat) returns (val: nat)
    requires fs.Valid() && clst < fs.g.nFatent && fs.g.fatType.Fat12?
    modifies fs`disk, fs`wflag, fs`winsect, fs.win
    ensures fs.Valid() && fs.View() == old(fs.View())
    ensures val == Entry(fs.g, fs.View(), clst)
    ensures WindowInFat(fs)
    ensures old(Mirrored(fs.g, fs.disk)) ==> Mirrored(fs.g, fs.disk)
  {
    hide FatFs.View;
    hide FatFs.ValidWindow;
    hide Mirrored;
    hide WindowInFat;
    hide Word;
    hide Dword;
    hide FatByte;
    EntryInside(fs.g, |fs.disk|, clst);
    var bc := clst + clst / 2;
    var b0 := FetchFatBytes(fs, bc, 1);
    var b1 := FetchFatBytes(fs, bc + 1, 1);
    val := Unpack12(clst, b0[0], b1[0]);
    assert b0[0] == FatByte(fs.g, fs.View(), bc + 0);
    assert b1[0] == FatByte(fs.g, fs.View(), bc + 1 + 0);
  }

  method Get16(fs: FatFs, clst: nat) returns (val: nat)
    requires fs.Valid() && clst < fs.g.nFatent && fs.g.fatType.Fat16?
    modifies fs`disk, fs`wflag, fs`winsect, fs.win
    ensures fs.Valid() && fs.View() == old(fs.View())
    ensures val == Entry(fs.g, fs.View(), clst)
    ensures WindowInFat(fs)
    ensures old(Mirrored(fs.g, fs.disk)) ==> Mirrored(fs.g, fs.disk)
  {
    hide FatFs.View;
    hide FatFs.ValidWindow;
    hide Mirrored;
    hide WindowInFat;
    hide Word;
    hide Dword;
    hide FatByte;
    EntryInside(fs.g, |fs.disk|, clst);
    WideEntryAddress(clst);
    var b := FetchFatBytes(fs, clst * 2, 2);
    assert b[0] == FatByte(fs.g, fs.View(), clst * 2 + 0);
    val := Word(b[0], b[1]);
  }

  method Get32(fs: FatFs, clst: nat) returns (val: nat)
    requires fs.Valid() && clst < fs.g.nFatent && fs.g.fatType.Fat32?
    modifies fs`disk, fs`wflag, fs`winsect, fs.win
    ensures fs.Valid() && fs.View() == old(fs.View())
    ensures val == Entry(fs.g, fs.View(), clst)
    ensures WindowInFat(fs)
    ensures old(Mirrored(fs.g, fs.disk)) ==> Mirrored(fs.g, fs.disk)
  {
    hide FatFs.View;
    hide FatFs.ValidWindow;
    hide Mirrored;
    hide WindowInFat;
    hide Word;
    hide Dword;
    hide FatByte;
    EntryInside(fs.g, |fs.disk|, clst);
    WideEntryAddress(clst);
    var b := FetchFatBytes(fs, clst * 4, 4);
    assert b[0] == FatByte(fs.g, fs.View(), clst * 4 + 0);
    val := Dword(b[0], b[1], b[2], b[3]) % 0x1000_0000;
  }

  /** get_fat: the entry of an in-range cluster, 1 for any other number. The
      view does not change; the window moves only when the FAT is read. */
  method GetFat(fs: FatFs, clst: nat) returns (val: nat)
    requires fs.Valid()
    modifies fs`disk, fs`wflag, fs`winsect, fs.win
    ensures fs.Valid() && fs.View() == old(fs.View())
    ensures val == if 2 <= clst < fs.g.nFatent then Table(fs.g, fs.View())[clst] else 1
    ensures old(Mirrored(fs.g, fs.disk)) ==> Mirrored(fs.g, fs.disk)
    ensures if 2 <= clst < fs.g.nFatent then WindowInFat(fs) else unchanged(fs) && unchanged(fs.win)
  {
    if clst < 2 || clst >= fs.g.nFatent {
      val := 1;
    } else {
      match fs.g.fatType
      case Fat12 => val := Get12(fs, clst);
      case Fat16 => val := Get16(fs, clst);
      case Fat32 => val := Get32(fs, clst);
    }
  }

  /** Where a byte of the first FAT is on the disk. */
  lemma SectorOfByte(g: Geometry, sectors: nat, k: nat)
    requires GeometryOk(g, sectors) && k < g.fsize * SECTOR_SIZE
    ensures k / SECTOR_SIZE < g.fsize && g.fatbase + k / SECTOR_SIZE < sectors
    ensures k == k / SECTOR_SIZE * SECTOR_SIZE + k % SECTOR_SIZE
    ensures InFirstFat(g, g.fatbase + k / SECTOR_SIZE) && !InSecondFat(g, g.fatbase + k / SECTOR_SIZE)
  {
    FirstFatIsInterval(g, sectors, g.fatbase + k / SECTOR_SIZE);
  }

  /** Change bytes of the first FAT that the window shows. */
  method PokeFatBytes(fs: FatFs, k: nat, data: seq<Byte>)
    requires fs.Valid() && 1 <= |data| && k + |data| <= fs.g.fsize * SECTOR_SIZE && k % SECTOR_SIZE + |data| <= SECTOR_SIZE
    requires fs.winsect == fs.g.fatbase + k / SECTOR_SIZE && fs.win[..] == fs.View()[fs.winsect]
    modifies fs`wflag, fs.win
    ensures fs.Valid() && BytesUpdated(fs.g, old(fs.View()), fs.View(), k, data)
    ensures WindowInFat(fs)
  {
    hide FatFs.View;
    hide FatFs.ValidWindow;
    hide GeometryOk;
    hide InFirstFat;
    hide InSecondFat;
    hide BytesUpdated;
    hide Store;
    hide Patch;
    SectorOfByte(fs.g, |fs.disk|, k);
    StoreUpdatesBytes(fs.g, fs.View(), k / SECTOR_SIZE, k % SECTOR_SIZE, data);
    PokeWindow(fs, k % SECTOR_SIZE, data);
  }

  method Put12(fs: FatFs, clst: nat, val: nat)
    requires fs.Valid() && clst < fs.g.nFatent && val < U32 && fs.g.fatType.Fat12?
    modifies fs`disk, fs`wflag, fs`winsect, fs.win
    ensures fs.Valid()
    ensures BytesUpdated(fs.g, old(fs.View()), fs.View(), EntryOffset(Fat12, clst), EntryBytes(fs.g, old(fs.View()), clst, val))
    ensures WindowInFat(fs)
    ensures old(Mirrored(fs.g, fs.disk)) ==> Mirrored(fs.g, fs.disk)
  {
    hide FatFs.View;
    hide FatFs.ValidWindow;
    hide Mirrored;
    hide WindowInFat;
    hide Word;
    hide Dword;
    hide FatByte;
    hide BytesUpdated;
    hide First12;
    hide Second12;
    hide GeometryOk;
    EntryInside(fs.g, |fs.disk|, clst);
    ghost var v := fs.View();
    var bc := clst + clst / 2;
    var p := FetchFatBytes(fs, bc, 1);
    assert p[0] == FatByte(fs.g, v, bc + 0);
    PokeFatBytes(fs, bc, [First12(clst, val, p[0])]);
    ghost var v1 := fs.View();
    var q := FetchFatBytes(fs, bc + 1, 1);
    assert q[0] == FatByte(fs.g, v1, bc + 1 + 0);
    NextByteKept(fs.g, v, v1, bc, [First12(clst, val, p[0])]);
    PokeFatBytes(fs, bc + 1, [Second12(clst, val, q[0])]);
    BytesUpdatedTwice(fs.g, v, v1, fs.View(), bc, First12(clst, val, p[0]), Second12(clst, val, q[0]));
  }

  method Put16(fs: FatFs, clst: nat, val: nat)
    requires fs.Valid() && clst < fs.g.nFatent && val < U32 && fs.g.fatType.Fat16?
    modifies fs`disk, fs`wflag, fs`winsect, fs.win
    ensures fs.Valid()
    ensures BytesUpdated(fs.g, old(fs.View()), fs.View(), EntryOffset(Fat16, clst), EntryBytes(fs.g, old(fs.View()), clst, val))
    ensures WindowInFat(fs)
    ensures old(Mirrored(fs.g, fs.disk)) ==> Mirrored(fs.g, fs.disk)
  {
    hide FatFs.View;
    hide FatFs.ValidWindow;
    hide Mirrored;
    hide WindowInFat;
    hide Word;
    hide Dword;
    hide FatByte;
    EntryInside(fs.g, |fs.disk|, clst);
    WideEntryAddress(clst);
    FirstFatIsInterval(fs.g, |fs.disk|, fs.g.fatbase + clst / (SECTOR_SIZE / 2));
    MoveWindow(fs, fs.g.fatbase + clst / (SECTOR_SIZE / 2));
    PokeFatBytes(fs, clst * 2, WordBytes(val));
  }

  method Put32(fs: FatFs, clst: nat, val: nat)
    requires fs.Valid() && clst < fs.g.nFatent && val < U32 && fs.g.fatType.Fat32?
    modifies fs`disk, fs`wflag, fs`winsect, fs.win
    ensures fs.Valid()
    ensures BytesUpdated(fs.g, old(fs.View()), fs.View(), EntryOffset(Fat32, clst), EntryBytes(fs.g, old(fs.View()), clst, val))
    ensures WindowInFat(fs)
    ensures old(Mirrored(fs.g, fs.disk)) ==> Mirrored(fs.g, fs.disk)
  {
    hide FatFs.View;
    hide FatFs.ValidWindow;
    hide Mirrored;
    hide WindowInFat;
    hide Word;
    hide Dword;
    hide FatByte;
    hide DwordBytes;
    EntryInside(fs.g, |fs.disk|, clst);
    WideEntryAddress(clst);
    var b := FetchFatBytes(fs, clst * 4, 4);
    assert b[3] == FatByte(fs.g, fs.View(), clst * 4 + 3);
    var top: nat := b[3] / 0x10;
    var merged := val % 0x1000_0000 + top * 0x1000_0000;
    PokeFatBytes(fs, clst * 4, DwordBytes(merged));
  }

  /** put_fat: the table changes in the one entry, the rest of the FAT area keeps
      its bytes, no sector outside the FAT changes, and an out-of-range cluster
      number is refused. */
  method PutFat(fs: FatFs, clst: nat, val: nat) returns (res: FResult)
    requires fs.Valid() && val < U32
    modifies fs`disk, fs`wflag, fs`winsect, fs.win
    ensures fs.Valid()
    ensures res == if 2 <= clst < fs.g.nFatent then FR_OK else FR_INT_ERR
    ensures res.FR_INT_ERR? ==> unchanged(fs) && unchanged(fs.win)
    ensures res.FR_OK? ==>
      && BytesUpdated(fs.g, old(fs.View()), fs.View(), EntryOffset(fs.g.fatType, clst), EntryBytes(fs.g, old(fs.View()), clst, val))
      && Table(fs.g, fs.View()) == Table(fs.g, old(fs.View()))[clst := Truncate(fs.g.fatType, val)]
      && WindowInFat(fs)
    ensures old(Mirrored(fs.g, fs.disk)) ==> Mirrored(fs.g, fs.disk)
  {
    res := FR_INT_ERR;
    if clst >= 2 && clst < fs.g.nFatent {
      ghost var v := fs.View();
      match fs.g.fatType {
        case Fat12 => Put12(fs, clst, val);
        case Fat16 => Put16(fs, clst, val);
        case Fat32 => Put32(fs, clst, val);
      }
      res := FR_OK;
      TableReadOverWrite(fs.g, v, fs.View(), clst, val);
    }
  }

  lemma TableReadOverWrite(g: Geometry, v: seq<Sector>, v': seq<Sector>, c: nat, val: nat)
    requires GeometryOk(g, |v|) && c < g.nFatent && val < U32
    requires BytesUpdated(g, v, v', EntryOffset(g.fatType, c), EntryBytes(g, v, c, val))
    ensures Table(g, v') == Table(g, v)[c := Truncate(g.fatType, val)]
  {
    forall d | 0 <= d < g.nFatent
      ensures Entry(g, v', d) == if d == c then Truncate(g.fatType, val) else Entry(g, v, d)
    {
      EntryReadOverWrite(g, v, v', c, val, d);
    }
  }
}

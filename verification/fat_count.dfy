/** Counting free clusters: f_getfree's full scan (src/fs/fat32/ff.cpp). */
module FatCount {
  import opened Arith
  import opened FatVolume
  import opened FatTable
  import opened FatChains
  import opened FatAlloc

  /** Zero entries among the first n, the two reserved ones included. */
  function Zeros(fat: Fat, n: nat): (z: nat)
    requires n <= |fat|
    ensures z <= n
  {
    if n == 0 then 0 else Zeros(fat, n - 1) + (if fat[n - 1] == 0 then 1 else 0)
  }

  function ReservedZeros(fat: Fat): nat
    requires |fat| >= 2
  {
    (if fat[0] == 0 then 1 else 0) + (if fat[1] == 0 then 1 else 0)
  }

  lemma {:induction false} ZerosAreFree(fat: Fat, n: nat)
    requires 2 <= n <= |fat|
    ensures Zeros(fat, n) == ReservedZeros(fat) + (n - 2 - UsedBelow(fat, n))
  {
    if n > 2 {
      ZerosAreFree(fat, n - 1);
    } else {
      assert Zeros(fat, 1) == if fat[0] == 0 then 1 else 0;
    }
  }

  lemma NoneUsed(fat: Fat)
    requires |fat| >= 3
    ensures UsedBelow(fat, 2) == 0
  {
  }

  lemma UsedStep(fat: Fat, n: nat)
    requires 2 <= n < |fat|
    ensures UsedBelow(fat, n + 1) == UsedBelow(fat, n) + if fat[n] == 0 then 0 else 1
  {
  }

  /** The FAT12 branch asks get_fat for every cluster and stops on an error mark. */
  method ScanPacked(fs: FatFs) returns (res: FResult, nfree: nat)
    requires fs.Valid()
    modifies fs`disk, fs`wflag, fs`winsect, fs.win
    ensures fs.Valid() && fs.View() == old(fs.View())
    ensures old(Mirrored(fs.g, fs.disk)) ==> Mirrored(fs.g, fs.disk)
    ensures var fat := Table(fs.g, fs.View());
      && (res.FR_INT_ERR? <==> exists c: nat :: InRange(fat, c) && fat[c] == 1)
      && (res.FR_OK? ==> nfree == FreeCount(fat))
  {
    hide UsedBelow;
    hide Table;
    hide FatFs.View;
    hide FatFs.ValidWindow;
    hide Mirrored;
    hide WindowInFat;
    ghost var fat := Table(fs.g, fs.View());
    NoneUsed(fat);
    nfree := 0;
    var clst := 2;
    while clst < fs.g.nFatent
      invariant fs.Valid() && fs.View() == old(fs.View())
      invariant old(Mirrored(fs.g, fs.disk)) ==> Mirrored(fs.g, fs.disk)
      invariant 2 <= clst <= fs.g.nFatent
      invariant nfree == clst - 2 - UsedBelow(fat, clst)
      invariant forall c: nat :: 2 <= c < clst ==> fat[c] != 1
    {
      UsedStep(fat, clst);
      var stat := GetFat(fs, clst);
      if stat == 1 { return FR_INT_ERR, nfree; }
      if stat == 0 { nfree := nfree + 1; }
      clst := clst + 1;
    }
    res := FR_OK;
  }

  lemma ByteAt(g: Geometry, v: seq<Sector>, q: nat, i: nat)
    requires GeometryOk(g, |v|) && q < g.fsize && i < SECTOR_SIZE
    ensures FatByte(g, v, q * SECTOR_SIZE + i) == v[g.fatbase + q][i]
  {
    DivModIs(q * SECTOR_SIZE + i, SECTOR_SIZE, q, i);
  }

  /** The value ld_word or ld_dword gives for the entry at offset i of a sector. */
  function Loaded(t: FatType, sec: Sector, i: nat): nat
    requires i + EntryWidth(t) <= SECTOR_SIZE
  {
    if t.Fat32? then Dword(sec[i], sec[i + 1], sec[i + 2], sec[i + 3]) % 0x1000_0000 else Word(sec[i], sec[i + 1])
  }

  lemma LoadedIsEntry(g: Geometry, v: seq<Sector>, e: nat, q: nat, i: nat)
    requires GeometryOk(g, |v|) && e < g.nFatent && !g.fatType.Fat12? && q < g.fsize
    requires EntryOffset(g.fatType, e) == q * SECTOR_SIZE + i && i + EntryWidth(g.fatType) <= SECTOR_SIZE
    ensures Loaded(g.fatType, v[g.fatbase + q], i) == Entry(g, v, e)
  {
    hide FatByte;
    hide Dword;
    hide Word;
    EntryInside(g, |v|, e);
    ByteAt(g, v, q, i);
    ByteAt(g, v, q, i + 1);
    if g.fatType.Fat32? {
      ByteAt(g, v, q, i + 2);
      ByteAt(g, v, q, i + 3);
    }
  }

  /** One step of the scan: the entry at offset i of the sector in the window. */
  method EntryIsZero(fs: FatFs, ghost e: nat, ghost q: nat, i: nat) returns (zero: bool)
    requires fs.Valid() && e < fs.g.nFatent && !fs.g.fatType.Fat12?
    requires EntryOffset(fs.g.fatType, e) == q * SECTOR_SIZE + i && i + EntryWidth(fs.g.fatType) <= SECTOR_SIZE
    requires q < fs.g.fsize && fs.winsect == fs.g.fatbase + q && fs.win[..] == fs.View()[fs.winsect]
    ensures zero <==> Entry(fs.g, fs.View(), e) == 0
  {
    hide FatFs.View;
    LoadedIsEntry(fs.g, fs.View(), e, q, i);
    zero := Loaded(fs.g.fatType, fs.win[..], i) == 0;
  }

  predicate Aligned(i: nat, width: nat) {
    if width == 4 then i % 4 == 0 else i % 2 == 0
  }

  /** Stepping by one entry stays in the sector or lands on the next one's start. */
  lemma NextOffset(i: nat, width: nat)
    requires (width == 2 || width == 4) && i < SECTOR_SIZE && Aligned(i, width)
    ensures i + width <= SECTOR_SIZE
    ensures (i + width) % SECTOR_SIZE == if i + width == SECTOR_SIZE then 0 else i + width
    ensures Aligned((i + width) % SECTOR_SIZE, width)
  {
  }

  /** An entry that lies in the table lies in one of its sectors. */
  lemma EntrySector(g: Geometry, sectors: nat, e: nat, q: nat, i: nat)
    requires GeometryOk(g, sectors) && e < g.nFatent && EntryOffset(g.fatType, e) == q * SECTOR_SIZE + i
    ensures q < g.fsize && g.fatbase + q < sectors
  {
    EntryInside(g, sectors, e);
  }

  /** The FAT16/FAT32 branch walks the sectors of the first FAT and counts zero
      entries from entry 0 on. */
  method ScanWide(fs: FatFs) returns (nfree: nat)
    requires fs.Valid() && !fs.g.fatType.Fat12?
    modifies fs`disk, fs`wflag, fs`winsect, fs.win
    ensures fs.Valid() && fs.View() == old(fs.View())
    ensures old(Mirrored(fs.g, fs.disk)) ==> Mirrored(fs.g, fs.disk)
    ensures nfree == Zeros(Table(fs.g, fs.View()), fs.g.nFatent)
  {
    hide FatFs.View;
    hide FatFs.ValidWindow;
    hide Mirrored;
    hide WindowInFat;
    hide Entry;
    hide GeometryOk;
    ghost var fat := Table(fs.g, fs.View());
    var width := EntryWidth(fs.g.fatType);
    var clst: nat, sect: nat, i: nat := fs.g.nFatent, fs.g.fatbase, 0;
    ghost var e: nat, q: nat := 0, 0;  // the entry looked at and the sector it is in
    nfree := 0;
    while clst > 0
      invariant fs.Valid() && fs.View() == old(fs.View())
      invariant old(Mirrored(fs.g, fs.disk)) ==> Mirrored(fs.g, fs.disk)
      invariant 0 <= clst <= fs.g.nFatent && e == fs.g.nFatent - clst && q >= 0
      invariant EntryOffset(fs.g.fatType, e) == q * SECTOR_SIZE + i && i < SECTOR_SIZE && Aligned(i, width)
      invariant sect == fs.g.fatbase + q + (if i == 0 then 0 else 1)
      invariant i != 0 ==> fs.winsect == fs.g.fatbase + q && fs.winsect < |fs.disk| && fs.win[..] == fs.View()[fs.winsect]
      invariant nfree == Zeros(fat, e)
    {
      EntrySector(fs.g, |fs.disk|, e, q, i);
      NextOffset(i, width);
      if i == 0 {
        MoveWindow(fs, sect);
        sect := sect + 1;
      }
      var zero := EntryIsZero(fs, e, q, i);
      if zero { nfree := nfree + 1; }
      if i + width == SECTOR_SIZE { q := q + 1; }
      i := (i + width) % SECTOR_SIZE;
      e := e + 1;
      clst := clst - 1;
    }
  }

  /** f_getfree: recount when the count is unknown. packed: 12-bit entries. */
  ghost predicate ScanStep(s: Alloc, packed: bool, s': Alloc)
  {
    && |s.fat| >= 3
    && s'.fat == s.fat && s'.last == s.last
    && (s.free <= |s.fat| - 2 ==> s'.free == s.free)
    && (s.free > |s.fat| - 2 ==>
          s'.free == s.free || s'.free == FreeCount(s.fat) + if packed then 0 else ReservedZeros(s.fat))
  }

  /** f_getfree on a mounted volume. */
  method GetFree(fs: FatFs) returns (res: FResult, nclst: nat)
    requires fs.Valid()
    modifies fs`disk, fs`wflag, fs`winsect, fs`freeClst, fs`fsiDirty, fs.win
    ensures fs.Valid() && fs.View() == old(fs.View())
    ensures old(Mirrored(fs.g, fs.disk)) ==> Mirrored(fs.g, fs.disk)
    ensures ScanStep(old(State(fs)), fs.g.fatType.Fat12?, State(fs))
    ensures old(fs.freeClst) <= fs.g.nFatent - 2 ==> res.FR_OK? && nclst == fs.freeClst == old(fs.freeClst)
    ensures old(fs.freeClst) > fs.g.nFatent - 2 ==>
      var fat := Table(fs.g, fs.View());
      && (res.FR_INT_ERR? <==> fs.g.fatType.Fat12? && exists c: nat :: InRange(fat, c) && fat[c] == 1)
      && (res.FR_INT_ERR? ==> fs.freeClst == old(fs.freeClst))
      && (res.FR_OK? ==> fs.freeClst == nclst)
      && (res.FR_OK? ==> nclst == FreeCount(fat) + if fs.g.fatType.Fat12? then 0 else ReservedZeros(fat))
  {
    hide Table;
    hide FatFs.View;
    hide FatFs.ValidWindow;
    hide Mirrored;
    hide UsedBelow;
    hide Zeros;
    hide WindowInFat;
    res, nclst := FR_OK, fs.freeClst;
    if fs.freeClst > fs.g.nFatent - 2 {
      if fs.g.fatType.Fat12? {
        res, nclst := ScanPacked(fs);
      } else {
        nclst := ScanWide(fs);
        ZerosAreFree(Table(fs.g, fs.View()), fs.g.nFatent);
      }
      if res.FR_OK? {
        FreeFits(fs.g, Table(fs.g, fs.View()), nclst);
        fs.freeClst := nclst;
        fs.fsiDirty := true;
      }
    }
  }

  lemma FreeFits(g: Geometry, fat: Fat, z: nat)
    requires 3 <= |fat| <= MaxClusters(g.fatType) + 2
    requires z <= FreeCount(fat) + 2
    ensures z < U32
  {
    UsedBounds(fat, |fat|);
  }

  /** After a scan the count is exact if and only if the table's two reserved
      entries are not zero (they hold the media byte and the end mark on every
      formatted volume), or the entries are packed in 12 bits. */
  lemma ScanIsExact(g: Geometry, fat: Fat, nclst: nat)
    requires |fat| >= 3
    requires nclst == FreeCount(fat) + if g.fatType.Fat12? then 0 else ReservedZeros(fat)
    ensures nclst == FreeCount(fat) <==> g.fatType.Fat12? || (fat[0] != 0 && fat[1] != 0)
  {
  }
}

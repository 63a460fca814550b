/** Mounting and synchronising a volume: the geometry checks of mount_volume and
    the FSInfo sector that sync_fs writes (src/fs/fat32/ff.cpp). */
module FatMount {
  import opened Arith
  import opened FatVolume
  import opened FatTable

  // ----- geometry -----

  type U16 = x: int | 0 <= x < 0x1_0000
  type Dw = x: int | 0 <= x < 0x1_0000_0000

  /** The boot sector fields the checks look at. */
  datatype Bpb = Bpb(
    bytsPerSec: U16, fatSz16: U16, fatSz32: Dw, numFats: Byte, secPerClus: Byte,
    rootEntCnt: U16, totSec16: U16, totSec32: Dw, rsvdSecCnt: U16, fsVer32: U16, fsInfo32: U16)

  datatype MountResult = Mounted(g: Geometry) | NoFilesystem

  function FatSize(b: Bpb): nat {
    if b.fatSz16 == 0 then b.fatSz32 else b.fatSz16
  }

  function TotalSectors(b: Bpb): nat {
    if b.totSec16 == 0 then b.totSec32 else b.totSec16
  }

  /** Reserved sectors, all FATs and the fixed root directory, unwrapped. */
  function SystemSectors(b: Bpb): nat {
    b.rsvdSecCnt as int + b.numFats as int * FatSize(b) + b.rootEntCnt / 16
  }

  /** The sub-type is decided by the cluster count alone. */
  function SubType(nclst: nat): (t: FatType)
    requires nclst <= MAX_FAT32
    ensures nclst <= MaxClusters(t)
  {
    if nclst <= MAX_FAT12 then Fat12 else if nclst <= MAX_FAT16 then Fat16 else Fat32
  }

  /** The checks that follow once the fields themselves are in order: sub-type,
      root directory and the size of the table. */
  function CheckSize(b: Bpb, bsect: Dw, sysect: nat): MountResult
    requires b.secPerClus > 0 && sysect <= TotalSectors(b)
  {
    var nclst := (TotalSectors(b) - sysect) / b.secPerClus;
    if nclst == 0 || nclst > MAX_FAT32 then NoFilesystem
    else
      var t := SubType(nclst);
      if t.Fat32? && (b.fsVer32 != 0 || b.rootEntCnt != 0) then NoFilesystem
      else if !t.Fat32? && b.rootEntCnt == 0 then NoFilesystem
      else if FatSize(b) < (TableBytes(t, nclst + 2) + SECTOR_SIZE - 1) / SECTOR_SIZE then NoFilesystem
      else Mounted(Geometry(t, b.numFats, b.secPerClus, nclst + 2, FatSize(b),
                            bsect, Wrap32(bsect + b.rsvdSecCnt), Wrap32(bsect + sysect)))
  }

  /** The checks of mount_volume on the volume that starts at sector bsect, with
      the 32-bit arithmetic of the code. */
  function CheckBpb(b: Bpb, bsect: Dw): MountResult {
    var sysect := Wrap32(SystemSectors(b));
    if b.bytsPerSec != SECTOR_SIZE then NoFilesystem
    else if b.numFats != 1 && b.numFats != 2 then NoFilesystem
    else if !PassesAsPower(b.secPerClus) then NoFilesystem
    else if b.rootEntCnt % 16 != 0 then NoFilesystem
    else if b.rsvdSecCnt == 0 then NoFilesystem
    else if TotalSectors(b) < sysect then NoFilesystem
    else CheckSize(b, bsect, sysect)
  }

  /** Whether the volume's FSInfo sector is ever read and written: fsi_flag is then
      0 after the mount, and 0x80 otherwise. */
  predicate KeepsFsInfo(b: Bpb, g: Geometry) {
    g.fatType.Fat32? && b.fsInfo32 == 1
  }

  lemma ClustersFit(g: Geometry, room: nat, nclst: nat)
    requires g.csize > 0 && nclst == room / g.csize && g.nFatent == nclst + 2
    ensures ClusterBase(g, g.nFatent) <= g.database + room
  {
    ClusterBaseIsProduct(g, g.nFatent);
    assert room == g.csize * (room / g.csize) + room % g.csize;
  }

  lemma Wraps(x: nat)
    ensures x < U32 ==> Wrap32(x) == x
    ensures x >= U32 ==> Wrap32(x) <= x - U32
  {
    if x < U32 {
      DivModIs(x, U32, 0, x);
    } else {
      assert x / U32 >= 1;
    }
  }

  /** A cluster size that passes is at most 128 sectors. */
  lemma ClusterSizeFits(x: Byte)
    requires PassesAsPower(x)
    ensures 1 <= x <= 128 && PowerOfTwo(x)
  {
    var k := PowerOfTwoIs(x);
    assert Pow2(8) == 256;
    if k >= 8 { Pow2Monotone(8, k); }
    Pow2Monotone(k, 7);
    assert Pow2(7) == 128;
  }

  /** What passing the checks establishes, field by field. */
  lemma MountFacts(b: Bpb, bsect: Dw)
    requires CheckBpb(b, bsect).Mounted?
    ensures var g, sysect := CheckBpb(b, bsect).g, Wrap32(SystemSectors(b));
      && 1 <= g.nFats == b.numFats as int <= 2 && 1 <= g.csize == b.secPerClus as int <= 128 && PowerOfTwo(g.csize)
      && g.fsize == FatSize(b) && sysect <= TotalSectors(b)
      && 3 <= g.nFatent == (TotalSectors(b) - sysect) / g.csize + 2 <= MaxClusters(g.fatType) + 2
      && g.volbase == bsect && g.fatbase == Wrap32(bsect + b.rsvdSecCnt) && g.database == Wrap32(bsect + sysect)
      && b.rsvdSecCnt >= 1
      && g.fsize >= (TableBytes(g.fatType, g.nFatent) + SECTOR_SIZE - 1) / SECTOR_SIZE
  {
    hide Wrap32;
    hide TableBytes;
    hide And;
    ClusterSizeFits(b.secPerClus);
  }

  lemma SystemSize(b: Bpb, g: Geometry)
    requires g.fsize == FatSize(b) && 1 <= g.nFats == b.numFats as int <= 2
    ensures SystemSectors(b) == b.rsvdSecCnt as int + FatSectors(g) + b.rootEntCnt / 16
    ensures 0 <= b.rootEntCnt / 16 < 0x1000
  {
  }

  /** A volume that passes the checks and fits on the disk has a sound geometry
      if and only if the size of its system area did not wrap around. */
  lemma MountedGeometry(b: Bpb, bsect: Dw, sectors: nat)
    requires CheckBpb(b, bsect).Mounted? && bsect + TotalSectors(b) <= sectors < U32
    ensures GeometryOk(CheckBpb(b, bsect).g, sectors) <==> SystemSectors(b) < U32
  {
    hide CheckBpb;
    hide Wrap32;
    var g := CheckBpb(b, bsect).g;
    var sysect := Wrap32(SystemSectors(b));
    MountFacts(b, bsect);
    SystemSize(b, g);
    ClustersFit(g, TotalSectors(b) - sysect, g.nFatent - 2);
    Wraps(SystemSectors(b));
    Wraps(bsect + b.rsvdSecCnt);
    Wraps(bsect + sysect);
    RoundUp(TableBytes(g.fatType, g.nFatent), g.fsize);
  }

  /** The size check in whole sectors is the check in bytes. */
  lemma RoundUp(bytes: nat, sectors: nat)
    ensures sectors >= (bytes + SECTOR_SIZE - 1) / SECTOR_SIZE <==> bytes <= sectors * SECTOR_SIZE
  {
  }

  // ----- FSInfo -----

  const FSI_LEAD_SIG := 0x41615252
  const FSI_STRUC_SIG := 0x61417272
  const BOOT_SIG := 0xAA55

  function Load32(sec: Sector, o: nat): nat
    requires o + 4 <= SECTOR_SIZE
  {
    Dword(sec[o], sec[o + 1], sec[o + 2], sec[o + 3])
  }

  /** The sector that sync_fs builds: signatures, free count, last allocation. */
  function FsInfoSector(free: nat, last: nat): Sector {
    var blank: Sector := seq(SECTOR_SIZE, _ => 0);
    var s1 := Patch(blank, 510, WordBytes(BOOT_SIG));
    var s2 := Patch(s1, 0, DwordBytes(FSI_LEAD_SIG));
    var s3 := Patch(s2, 484, DwordBytes(FSI_STRUC_SIG));
    var s4 := Patch(s3, 488, DwordBytes(free));
    Patch(s4, 492, DwordBytes(last))
  }

  /** What mount_volume takes from an FSInfo sector: both hints, or "unknown". */
  function LoadFsInfo(sec: Sector): (nat, nat) {
    if Word(sec[510], sec[511]) == BOOT_SIG && Load32(sec, 0) == FSI_LEAD_SIG && Load32(sec, 484) == FSI_STRUC_SIG
    then (Load32(sec, 488), Load32(sec, 492))
    else (0xFFFF_FFFF, 0xFFFF_FFFF)
  }

  lemma PatchLoads(sec: Sector, o: nat, val: nat)
    requires o + 4 <= SECTOR_SIZE && val < U32
    ensures Load32(Patch(sec, o, DwordBytes(val)), o) == val
  {
    DwordRoundTrip(val);
  }

  lemma LoadOutside(sec: Sector, o: nat, data: seq<Byte>, p: nat)
    requires o + |data| <= SECTOR_SIZE && p + 4 <= SECTOR_SIZE
    requires p + 4 <= o || o + |data| <= p
    ensures Load32(Patch(sec, o, data), p) == Load32(sec, p)
  {
    hide Dword;
  }

  /** The hints written by a synchronisation come back at the next mount. */
  lemma FsInfoRoundTrip(free: nat, last: nat)
    requires free < U32 && last < U32
    ensures LoadFsInfo(FsInfoSector(free, last)) == (free, last)
  {
    var blank: Sector := seq(SECTOR_SIZE, _ => 0);
    var s1 := Patch(blank, 510, WordBytes(BOOT_SIG));
    var s2 := Patch(s1, 0, DwordBytes(FSI_LEAD_SIG));
    var s3 := Patch(s2, 484, DwordBytes(FSI_STRUC_SIG));
    var s4 := Patch(s3, 488, DwordBytes(free));
    var s5 := Patch(s4, 492, DwordBytes(last));
    Signatures(s1, s2, s3, s4, free, last);
    BootSignature(blank, s1, s2, s3, s4, DwordBytes(free), DwordBytes(last));
  }

  lemma BootSignature(blank: Sector, s1: Sector, s2: Sector, s3: Sector, s4: Sector, free: seq<Byte>, last: seq<Byte>)
    requires |free| == 4 && |last| == 4
    requires s1 == Patch(blank, 510, WordBytes(BOOT_SIG))
    requires s2 == Patch(s1, 0, DwordBytes(FSI_LEAD_SIG))
    requires s3 == Patch(s2, 484, DwordBytes(FSI_STRUC_SIG))
    requires s4 == Patch(s3, 488, free)
    ensures var s5 := Patch(s4, 492, last); Word(s5[510], s5[511]) == BOOT_SIG
  {
    hide DwordBytes;
    hide Patch;
    assert s1[510] == WordBytes(BOOT_SIG)[0] && s1[511] == WordBytes(BOOT_SIG)[1];
  }

  /** Later stores do not disturb earlier ones. */
  lemma Signatures(s1: Sector, s2: Sector, s3: Sector, s4: Sector, free: nat, last: nat)
    requires free < U32 && last < U32
    requires s2 == Patch(s1, 0, DwordBytes(FSI_LEAD_SIG))
    requires s3 == Patch(s2, 484, DwordBytes(FSI_STRUC_SIG))
    requires s4 == Patch(s3, 488, DwordBytes(free))
    ensures var s5 := Patch(s4, 492, DwordBytes(last));
      && Load32(s5, 0) == FSI_LEAD_SIG && Load32(s5, 484) == FSI_STRUC_SIG
      && Load32(s5, 488) == free && Load32(s5, 492) == last
  {
    hide DwordBytes;
    hide Patch;
    hide Load32;
    PatchLoads(s1, 0, FSI_LEAD_SIG);
    PatchLoads(s2, 484, FSI_STRUC_SIG);
    PatchLoads(s3, 488, free);
    PatchLoads(s4, 492, last);
    LoadOutside(s2, 484, DwordBytes(FSI_STRUC_SIG), 0);
    LoadOutside(s3, 488, DwordBytes(free), 0);
    LoadOutside(s4, 492, DwordBytes(last), 0);
    LoadOutside(s3, 488, DwordBytes(free), 484);
    LoadOutside(s4, 492, DwordBytes(last), 484);
    LoadOutside(s4, 492, DwordBytes(last), 488);
  }

  /** sync_fs: everything pending reaches the disk, and on a 32-bit volume whose
      hints changed the sector behind the volume's first one becomes FSInfo. */
  method SyncFs(fs: FatFs)
    requires fs.Valid()
    modifies fs`disk, fs`wflag, fs`winsect, fs`fsiDirty, fs.win
    ensures fs.Valid() && !fs.wflag && fs.disk == fs.View()
    ensures var put := fs.g.fatType.Fat32? && old(fs.fsiDirty) && !fs.fsiDisabled;
      fs.View() == if put then old(fs.View())[fs.g.volbase + 1 := FsInfoSector(fs.freeClst, fs.lastClst)] else old(fs.View())
    ensures fs.g.fatType.Fat32? && !fs.fsiDisabled ==> !fs.fsiDirty
    ensures fs.g.volbase + 1 < fs.g.fatbase && old(Mirrored(fs.g, fs.disk)) ==> Mirrored(fs.g, fs.disk)
  {
    SyncWindow(fs);
    if fs.g.fatType.Fat32? && fs.fsiDirty && !fs.fsiDisabled {
      var info := FsInfoSector(fs.freeClst, fs.lastClst);
      forall i | 0 <= i < SECTOR_SIZE { fs.win[i] := info[i]; }
      assert fs.win[..] == info;
      fs.winsect := fs.g.volbase + 1;
      DiskWrite(fs, fs.win, fs.winsect);
      fs.fsiDirty := false;
    }
  }

  /** What entry c reads as once FSInfo lies over the first sector of the FAT. */
  function InfoEntry(free: nat, last: nat, c: nat): nat
    requires c < SECTOR_SIZE / 4
  {
    Load32(FsInfoSector(free, last), 4 * c) % 0x1000_0000
  }

  /** Writing FSInfo leaves the table alone if and only if the volume reserves
      more than its boot sector, or the entries in the first sector of the FAT
      happen to read as FSInfo does. With one reserved sector entry 0 ends up as the
      low bits of the lead signature. */
  lemma FsInfoAndTable(g: Geometry, v: seq<Sector>, free: nat, last: nat)
    requires GeometryOk(g, |v|) && g.fatType.Fat32? && free < U32 && last < U32
    ensures Table(g, v[g.volbase + 1 := FsInfoSector(free, last)]) == Table(g, v) <==>
      || g.volbase + 1 < g.fatbase
      || forall c: nat :: c < SECTOR_SIZE / 4 && c < g.nFatent ==> Table(g, v)[c] == InfoEntry(free, last, c)
    ensures g.volbase + 1 == g.fatbase ==>
      Table(g, v[g.volbase + 1 := FsInfoSector(free, last)])[0] == FSI_LEAD_SIG % 0x1000_0000
  {
    hide FsInfoSector, Load32;
    var v' := v[g.volbase + 1 := FsInfoSector(free, last)];
    LeadSignature(free, last);
    forall c: nat | c < g.nFatent
      ensures Table(g, v')[c] == if g.volbase + 1 < g.fatbase || c >= SECTOR_SIZE / 4 then Table(g, v)[c] else InfoEntry(free, last, c)
    {
      EntryUnderInfo(g, v, FsInfoSector(free, last), c);
    }
    if Table(g, v') == Table(g, v) {
    } else {
      var c: nat :| c < g.nFatent && Table(g, v')[c] != Table(g, v)[c];
    }
  }

  lemma ByteUnderInfo(g: Geometry, v: seq<Sector>, info: Sector, k: nat)
    requires GeometryOk(g, |v|) && k < g.fsize * SECTOR_SIZE
    ensures FatByte(g, v[g.volbase + 1 := info], k) ==
      if g.volbase + 1 < g.fatbase || k >= SECTOR_SIZE then FatByte(g, v, k) else info[k]
  {
  }

  /** Replacing the sector behind the volume's first reaches an entry exactly if
      that sector is the first of the FAT and holds the entry. */
  lemma EntryUnderInfo(g: Geometry, v: seq<Sector>, info: Sector, c: nat)
    requires GeometryOk(g, |v|) && g.fatType.Fat32? && c < g.nFatent
    ensures Entry(g, v[g.volbase + 1 := info], c) ==
      if g.volbase + 1 < g.fatbase || c >= SECTOR_SIZE / 4 then Entry(g, v, c) else Load32(info, 4 * c) % 0x1000_0000
  {
    hide FatByte, Dword, Word;
    EntryInside(g, |v|, c);
    ByteUnderInfo(g, v, info, 4 * c);
    ByteUnderInfo(g, v, info, 4 * c + 1);
    ByteUnderInfo(g, v, info, 4 * c + 2);
    ByteUnderInfo(g, v, info, 4 * c + 3);
  }

  // ----- where the checks are not enough -----

  /** A boot sector whose system area of 2^32 + 32 sectors counts as 32: the
      volume mounts, and its geometry is not sound on any disk. */
  lemma WrappedVolumeMounts(sectors: nat)
    ensures var b := Bpb(512, 0, 0x8000_0000, 2, 1, 0, 0, 200000, 32, 0, 1);
      && SystemSectors(b) == U32 + 32
      && CheckBpb(b, 0).Mounted? && !GeometryOk(CheckBpb(b, 0).g, sectors)
  {
    var b := Bpb(512, 0, 0x8000_0000, 2, 1, 0, 0, 200000, 32, 0, 1);
    DivModIs(U32 + 32, U32, 1, 32);
    assert PassesAsPower(1);
    assert CheckBpb(b, 0).Mounted?;
  }

  /** Where the boot sector is the only reserved one, the first FSInfo that sync_fs
      writes replaces entry 0 of the table. */
  method SyncOverTable(fs: FatFs)
    requires fs.Valid() && fs.g.fatType.Fat32? && fs.fsiDirty && !fs.fsiDisabled && fs.g.volbase + 1 == fs.g.fatbase
    modifies fs`disk, fs`wflag, fs`winsect, fs`fsiDirty, fs.win
    ensures fs.Valid() && fs.disk == fs.View() && Table(fs.g, fs.View())[0] == FSI_LEAD_SIG % 0x1000_0000
  {
    hide FsInfoSector, Table, InfoEntry, FatFs.View, FatFs.ValidWindow;
    ghost var v := fs.View();
    SyncFs(fs);
    FsInfoAndTable(fs.g, v, fs.freeClst, fs.lastClst);
  }

  /** A sound 32-bit volume of that kind which asks for FSInfo. The media type in
      the low byte of its entry 0 is lost. */
  lemma OneReservedSectorMounts(v: seq<Sector>, free: nat, last: nat)
    requires |v| == 200000 && free < U32 && last < U32
    ensures var b := Bpb(512, 0, 2000, 2, 1, 0, 0, 200000, 1, 0, 1);
      && CheckBpb(b, 0).Mounted?
      && var g := CheckBpb(b, 0).g;
         && GeometryOk(g, |v|) && KeepsFsInfo(b, g) && g.volbase + 1 == g.fatbase
         && (Table(g, v)[0] == 0x0FFF_FFF8 ==> Table(g, v[g.volbase + 1 := FsInfoSector(free, last)])[0] != 0x0FFF_FFF8)
  {
    hide FsInfoSector, Table, InfoEntry;
    var b := Bpb(512, 0, 2000, 2, 1, 0, 0, 200000, 1, 0, 1);
    SmallVolume(b);
    MountedGeometry(b, 0, |v|);
    FsInfoAndTable(CheckBpb(b, 0).g, v, free, last);
  }

  lemma SmallVolume(b: Bpb)
    requires b == Bpb(512, 0, 2000, 2, 1, 0, 0, 200000, 1, 0, 1)
    ensures CheckBpb(b, 0).Mounted? && SystemSectors(b) == 4001
    ensures var g := CheckBpb(b, 0).g; g.fatType.Fat32? && g.volbase == 0 && g.fatbase == 1
  {
    DivModIs(4001, U32, 0, 4001);
    DivModIs(1, U32, 0, 1);
    assert PassesAsPower(1);
  }

  lemma LeadSignature(free: nat, last: nat)
    requires free < U32 && last < U32
    ensures Load32(FsInfoSector(free, last), 0) == FSI_LEAD_SIG
  {
    var blank: Sector := seq(SECTOR_SIZE, _ => 0);
    var s1 := Patch(blank, 510, WordBytes(BOOT_SIG));
    var s2 := Patch(s1, 0, DwordBytes(FSI_LEAD_SIG));
    var s3 := Patch(s2, 484, DwordBytes(FSI_STRUC_SIG));
    var s4 := Patch(s3, 488, DwordBytes(free));
    PatchLoads(s1, 0, FSI_LEAD_SIG);
    LoadOutside(s2, 484, DwordBytes(FSI_STRUC_SIG), 0);
    LoadOutside(s3, 488, DwordBytes(free), 0);
    LoadOutside(s4, 492, DwordBytes(last), 0);
  }
}

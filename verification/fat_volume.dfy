/** The mounted FAT volume: its geometry, the disk below it and the one-sector
    write-back window (src/fs/fat32/ff.cpp, src/fs/fat32/diskio.cpp).

    The disk never fails (diskio.cpp:163, diskio.cpp:215), so it is a sequence
    of sectors and FR_DISK_ERR cannot arise. Machine words are integers; every
    place where the code relies on 32-bit wrap-around goes through Wrap32.

    The key notion is View: the disk as it will be once the dirty window has
    been written back, mirror copy included. Everything above this file talks
    about the view only, because moving the window leaves it unchanged. */
module FatVolume {
  import opened Arith

  const SECTOR_SIZE := 512
  const U32 := 0x1_0000_0000
  const MAX_FAT12 := 0xFF5
  const MAX_FAT16 := 0xFFF5
  const MAX_FAT32 := 0x0FFFFFF5
  const NO_SECTOR := 0xFFFF_FFFF

  type Byte = b: int | 0 <= b < 256
  type Sector = s: seq<Byte> | |s| == SECTOR_SIZE witness seq(SECTOR_SIZE, _ => 0)

  datatype FatType = Fat12 | Fat16 | Fat32

  datatype Geometry = Geometry(
    fatType: FatType,
    nFats: nat,       // copies of the FAT
    csize: nat,       // sectors per cluster
    nFatent: nat,     // FAT entries: clusters + 2
    fsize: nat,       // sectors per FAT
    volbase: nat,     // first sector of the volume
    fatbase: nat,     // first sector of the first FAT
    database: nat)    // first sector of cluster 2

  function Wrap32(x: int): (r: nat)
    ensures r < U32
  {
    x % U32
  }

  function MaxClusters(t: FatType): nat {
    match t
    case Fat12 => MAX_FAT12
    case Fat16 => MAX_FAT16
    case Fat32 => MAX_FAT32
  }

  /** Bytes that n entries of the table occupy, rounded up for 12-bit entries. */
  function TableBytes(t: FatType, n: nat): nat {
    match t
    case Fat12 => n * 3 / 2 + n % 2
    case Fat16 => n * 2
    case Fat32 => n * 4
  }

  /** Sectors of all copies of the FAT. */
  function FatSectors(g: Geometry): nat {
    if g.nFats == 2 then 2 * g.fsize else g.fsize
  }

  /** First sector of cluster c, counted cluster by cluster from cluster 2.
      ClusterBaseIsProduct ties it to the product that clst2sect computes. */
  function ClusterBase(g: Geometry, c: nat): (s: nat)
    ensures s >= g.database
  {
    if c <= 2 then g.database else ClusterBase(g, c - 1) + g.csize
  }

  lemma {:induction false} ClusterBaseIsProduct(g: Geometry, c: nat)
    requires c >= 2
    ensures ClusterBase(g, c) == g.database + g.csize * (c - 2)
  {
    if c > 2 {
      ClusterBaseIsProduct(g, c - 1);
      assert g.csize * (c - 2) == g.csize * (c - 3) + g.csize;
    }
  }

  /** What a volume that passed mount_volume's checks guarantees. */
  ghost predicate GeometryOk(g: Geometry, sectors: nat) {
    && 1 <= g.nFats <= 2
    && 1 <= g.csize <= 128 && PowerOfTwo(g.csize)
    && 3 <= g.nFatent <= MaxClusters(g.fatType) + 2
    && g.volbase < g.fatbase
    && g.fatbase + FatSectors(g) <= g.database
    && TableBytes(g.fatType, g.nFatent) <= g.fsize * SECTOR_SIZE
    && ClusterBase(g, g.nFatent) <= sectors < U32
  }

  /** The window test of sync_window, in unsigned 32-bit arithmetic. */
  predicate InFirstFat(g: Geometry, s: nat) {
    Wrap32(s - g.fatbase) < g.fsize
  }

  predicate InSecondFat(g: Geometry, s: nat) {
    g.nFats == 2 && g.fatbase + g.fsize <= s < g.fatbase + 2 * g.fsize
  }

  predicate InFatArea(g: Geometry, s: nat) {
    g.fatbase <= s < g.fatbase + FatSectors(g)
  }

  /** The wrapping comparison is the plain interval on a mounted volume. */
  lemma FirstFatIsInterval(g: Geometry, sectors: nat, s: nat)
    requires GeometryOk(g, sectors) && s < sectors
    ensures InFirstFat(g, s) <==> g.fatbase <= s < g.fatbase + g.fsize
    ensures InFatArea(g, s) <==> InFirstFat(g, s) || InSecondFat(g, s)
  {
    if s < g.fatbase {
      assert (s - g.fatbase) % U32 == s - g.fatbase + U32;
    } else {
      assert (s - g.fatbase) % U32 == s - g.fatbase;
    }
  }

  /** Write one sector and, for a sector of the first FAT, its copy in the second. */
  function Store(g: Geometry, disk: seq<Sector>, s: nat, data: Sector): (r: seq<Sector>)
    requires GeometryOk(g, |disk|) && s < |disk|
    ensures |r| == |disk|
  {
    if InFirstFat(g, s) && g.nFats == 2 then
      FirstFatIsInterval(g, |disk|, s);
      disk[s := data][s + g.fsize := data]
    else
      disk[s := data]
  }

  /** Both copies of the FAT hold the same sectors. */
  ghost predicate Mirrored(g: Geometry, disk: seq<Sector>)
    requires GeometryOk(g, |disk|)
  {
    g.nFats == 2 ==>
      forall s :: g.fatbase <= s < g.fatbase + g.fsize ==> disk[s] == disk[s + g.fsize]
  }

  lemma StoreKeepsMirror(g: Geometry, disk: seq<Sector>, s: nat, data: Sector)
    requires GeometryOk(g, |disk|) && s < |disk| && !InSecondFat(g, s)
    requires Mirrored(g, disk)
    ensures Mirrored(g, Store(g, disk, s, data))
  {
    FirstFatIsInterval(g, |disk|, s);
  }

  /** The filesystem object. Geometry is fixed at mount time. */
  class FatFs {
    const g: Geometry
    const win: array<Byte>
    var disk: seq<Sector>
    var winsect: nat
    var wflag: bool
    var freeClst: nat
    var lastClst: nat
    var fsiDirty: bool
    var fsiDisabled: bool

    /** The state after a mount: a clean window that holds no sector. */
    constructor (g: Geometry, disk: seq<Sector>, win: array<Byte>, freeClst: nat, lastClst: nat, fsiDisabled: bool)
      requires GeometryOk(g, |disk|) && win.Length == SECTOR_SIZE
      requires freeClst < U32 && lastClst < U32
      ensures Valid() && View() == disk && this.g == g && this.win == win && this.disk == disk
      ensures this.freeClst == freeClst && this.lastClst == lastClst && !wflag && this.fsiDisabled == fsiDisabled && !fsiDirty
    {
      this.g := g;
      this.win := win;
      this.disk := disk;
      winsect := NO_SECTOR;
      wflag := false;
      this.freeClst := freeClst;
      this.lastClst := lastClst;
      fsiDirty := false;
      this.fsiDisabled := fsiDisabled;
    }

    ghost predicate Valid()
      reads this, win
      ensures Valid() ==> ValidWindow() && freeClst < U32 && lastClst < U32
    {
      ValidWindow() && freeClst < U32 && lastClst < U32
    }

    ghost predicate ValidWindow()
      reads `disk, `winsect, `wflag, win
      ensures ValidWindow() ==> GeometryOk(g, |disk|)
    {
      && GeometryOk(g, |disk|)
      && win.Length == SECTOR_SIZE
      && (wflag ==> winsect < |disk| && !InSecondFat(g, winsect))
      && (!wflag ==> winsect == NO_SECTOR || (winsect < |disk| && win[..] == disk[winsect]))
    }

    /** The disk overlaid by the dirty window. */
    ghost function View(): (v: seq<Sector>)
      requires ValidWindow()
      reads `disk, `winsect, `wflag, win
      ensures |v| == |disk|
    {
      if wflag then Store(g, disk, winsect, win[..]) else disk
    }
  }

  /** The window shows a sector of the first FAT. */
  predicate WindowInFat(fs: FatFs)
    reads fs`disk, fs`winsect
  {
    fs.winsect < |fs.disk| && InFirstFat(fs.g, fs.winsect)
  }

  /** diskio.cpp disk_read of one sector. */
  method DiskRead(fs: FatFs, buff: array<Byte>, sector: nat)
    requires sector < |fs.disk| && buff.Length == SECTOR_SIZE
    modifies buff
    ensures buff[..] == fs.disk[sector]
  {
    var data := fs.disk[sector];
    forall i | 0 <= i < SECTOR_SIZE { buff[i] := data[i]; }
    assert buff[..] == data;
  }

  /** diskio.cpp disk_write of one sector. */
  method DiskWrite(fs: FatFs, buff: array<Byte>, sector: nat)
    requires sector < |fs.disk| && buff.Length == SECTOR_SIZE
    modifies fs`disk
    ensures fs.disk == old(fs.disk)[sector := buff[..]]
  {
    fs.disk := fs.disk[sector := buff[..]];
  }

  method SyncWindow(fs: FatFs)
    requires fs.Valid()
    modifies fs`disk, fs`wflag
    ensures fs.Valid() && fs.View() == old(fs.View())
    ensures !fs.wflag && fs.disk == fs.View()
    ensures old(Mirrored(fs.g, fs.disk)) ==> Mirrored(fs.g, fs.disk)
  {
    if fs.wflag {
      FirstFatIsInterval(fs.g, |fs.disk|, fs.winsect);
      ghost var was := fs.disk;
      if Mirrored(fs.g, was) {
        StoreKeepsMirror(fs.g, was, fs.winsect, fs.win[..]);
      }
      DiskWrite(fs, fs.win, fs.winsect);
      fs.wflag := false;
      if InFirstFat(fs.g, fs.winsect) {
        if fs.g.nFats == 2 {
          DiskWrite(fs, fs.win, fs.winsect + fs.g.fsize);
        }
      }
    }
  }

  /** The view is transparent to window moves, and the window ends up holding
      the current bytes of the requested sector. */
  method MoveWindow(fs: FatFs, sect: nat)
    requires fs.Valid() && sect < |fs.disk|
    modifies fs`disk, fs`wflag, fs`winsect, fs.win
    ensures fs.Valid() && fs.View() == old(fs.View())
    ensures fs.winsect == sect && fs.win[..] == fs.View()[sect]
    ensures old(Mirrored(fs.g, fs.disk)) ==> Mirrored(fs.g, fs.disk)
  {
    if sect != fs.winsect {
      SyncWindow(fs);
      DiskRead(fs, fs.win, sect);
      fs.winsect := sect;
    } else if fs.wflag {
      FirstFatIsInterval(fs.g, |fs.disk|, sect);
    }
  }

  /** Bytes o.. of a sector replaced by data. */
  function Patch(sec: Sector, o: nat, data: seq<Byte>): (r: Sector)
    requires o + |data| <= SECTOR_SIZE
    ensures forall i :: 0 <= i < SECTOR_SIZE ==>
      r[i] == if o <= i < o + |data| then data[i - o] else sec[i]
  {
    sec[..o] + data + sec[o + |data|..]
  }

  /** Change bytes of the window and mark it dirty: the stores through fs->win
      in put_fat. In the view exactly the window's sector changes (with its
      mirror copy when it belongs to the first FAT). */
  method PokeWindow(fs: FatFs, o: nat, data: seq<Byte>)
    requires fs.Valid() && fs.winsect < |fs.disk| && !InSecondFat(fs.g, fs.winsect)
    requires o + |data| <= SECTOR_SIZE
    modifies fs`wflag, fs.win
    ensures fs.Valid()
    ensures fs.win[..] == Patch(old(fs.win[..]), o, data)
    ensures fs.View() == Store(fs.g, old(fs.View()), fs.winsect, fs.win[..])
  {
    FirstFatIsInterval(fs.g, |fs.disk|, fs.winsect);
    ghost var was := fs.win[..];
    forall i | 0 <= i < |data| { fs.win[o + i] := data[i]; }
    fs.wflag := true;
    assert fs.win[..] == Patch(was, o, data);
  }
}

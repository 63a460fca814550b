/** Data sector transfers on a mounted volume, past the window: disk_read and
    disk_write as f_read, f_write, f_lseek and f_truncate call them
    (src/fs/fat32/ff.cpp, src/fs/fat32/diskio.cpp). */
module FatIo {
  import opened Arith
  import opened FatVolume
  import opened FatTable
  import opened FatLayout

  /** s is a data sector that the window does not show. */
  predicate Bypasses(fs: FatFs, s: nat)
    reads fs`disk, fs`winsect
  {
    fs.g.database <= s < |fs.disk| && s != fs.winsect
  }

  /** So are the n sectors from s on. */
  predicate RunBypasses(fs: FatFs, s: nat, n: nat)
    reads fs`disk, fs`winsect
  {
    fs.g.database <= s && s + n <= |fs.disk| && !(s <= fs.winsect < s + n)
  }

  lemma DataSectorOutsideFat(g: Geometry, sectors: nat, s: nat)
    requires GeometryOk(g, sectors) && g.database <= s < sectors
    ensures !InFatArea(g, s) && !InFirstFat(g, s) && !InSecondFat(g, s) && s != 0
  {
    FirstFatIsInterval(g, sectors, s);
  }

  lemma StoreElsewhere(g: Geometry, disk: seq<Sector>, w: nat, win: Sector, s: nat, data: Sector)
    requires GeometryOk(g, |disk|) && w < |disk| && g.database <= s < |disk| && s != w
    ensures Store(g, disk[s := data], w, win) == Store(g, disk, w, win)[s := data]
    ensures Store(g, disk, w, win)[s] == disk[s]
  {
    FirstFatIsInterval(g, |disk|, w);
  }

  /** A data sector outside the window reads as the view has it. */
  method ReadSector(fs: FatFs, buff: array<Byte>, s: nat)
    requires fs.Valid() && Bypasses(fs, s) && buff.Length == SECTOR_SIZE && buff != fs.win
    modifies buff
    ensures buff[..] == fs.View()[s] && fs.Valid() && fs.View() == old(fs.View())
  {
    if fs.wflag {
      StoreElsewhere(fs.g, fs.disk, fs.winsect, fs.win[..], s, fs.disk[s]);
    }
    DiskRead(fs, buff, s);
  }

  /** Writing a data sector outside the window changes that sector of the view. */
  method WriteSector(fs: FatFs, data: Sector, s: nat)
    requires fs.Valid() && Bypasses(fs, s)
    modifies fs`disk
    ensures fs.Valid() && fs.View() == old(fs.View())[s := data]
    ensures old(Mirrored(fs.g, fs.disk)) ==> Mirrored(fs.g, fs.disk)
  {
    DataSectorOutsideFat(fs.g, |fs.disk|, s);
    if fs.wflag {
      StoreElsewhere(fs.g, fs.disk, fs.winsect, fs.win[..], s, data);
    }
    fs.disk := fs.disk[s := data];
  }

  /** The cc sectors a byte buffer holds. */
  function Split(bytes: seq<Byte>, cc: nat): (r: seq<Sector>)
    requires |bytes| == SECTOR_SIZE * cc
    ensures |r| == cc
  {
    seq(cc, j requires 0 <= j < cc => bytes[SECTOR_SIZE * j..SECTOR_SIZE * (j + 1)])
  }

  lemma SplitBytes(bytes: seq<Byte>, cc: nat)
    requires |bytes| == SECTOR_SIZE * cc
    ensures Flat(bytes, Split(bytes, cc))
  {
  }

  /** v with the sectors data laid over it from s on. */
  ghost predicate RunStored(v: seq<Sector>, v': seq<Sector>, s: nat, data: seq<Sector>) {
    |v'| == |v| && forall t: nat :: t < |v| ==> v'[t] == if s <= t < s + |data| then data[t - s] else v[t]
  }

  /** disk_write of consecutive data sectors. */
  method WriteRun(fs: FatFs, data: seq<Sector>, s: nat)
    requires fs.Valid() && RunBypasses(fs, s, |data|)
    modifies fs`disk
    ensures fs.Valid() && RunStored(old(fs.View()), fs.View(), s, data)
    ensures old(Mirrored(fs.g, fs.disk)) ==> Mirrored(fs.g, fs.disk)
  {
    hide FatFs.View;
    hide FatFs.ValidWindow;
    hide Mirrored;
    var j := 0;
    ghost var sectors := |fs.disk|;
    while j < |data|
      invariant 0 <= j <= |data| && fs.Valid() && |fs.disk| == sectors
      invariant RunStored(old(fs.View()), fs.View(), s, data[..j])
      invariant old(Mirrored(fs.g, fs.disk)) ==> Mirrored(fs.g, fs.disk)
    {
      WriteSector(fs, data[j], s + j);
      j := j + 1;
    }
    assert data[..j] == data;
  }

  /** disk_read of consecutive data sectors. */
  method ReadRun(fs: FatFs, s: nat, cc: nat) returns (data: seq<Sector>)
    requires fs.Valid() && RunBypasses(fs, s, cc)
    ensures |data| == cc && forall j :: 0 <= j < cc ==> data[j] == fs.View()[s + j]
  {
    data := fs.disk[s..s + cc];
    forall j | 0 <= j < cc ensures data[j] == fs.View()[s + j] {
      if fs.wflag {
        StoreElsewhere(fs.g, fs.disk, fs.winsect, fs.win[..], s + j, fs.disk[s + j]);
      }
    }
  }
}

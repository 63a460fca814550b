/** f_lseek (src/fs/fat32/ff.cpp). */
module FatSeek {
  import opened Arith
  import opened FatVolume
  import opened FatTable
  import opened FatChains
  import opened FatAlloc
  import opened FatLayout
  import opened FatIo
  import opened FatFile
  import opened FatRead

  // ----- f_lseek -----

  /** The cluster-following loop stands in cluster i of the chain, with the
      target ofs bytes behind the start of that cluster. */
  ghost predicate Following(fp: Fil, v: seq<Sector>, cs: seq<nat>, b: seq<Byte>, target: nat, i: nat, clst: nat, ofs: nat)
    reads fp, fp.buf, fp.fs, fp.fs.win
  {
    && fp.Core() && GeometryOk(fp.fs.g, |v|) && fp.Bytes() == b && Grown(fp.fs.g, v, fp.fs.View(), cs, fp.chain, fp.sclust)
    && i < |fp.chain| && fp.chain[i] == fp.clust == clst
    && fp.fptr == ClusterStart(fp.fs.g, i) && ofs >= 1 && fp.fptr + ofs == target < U32
    && (fp.canWrite || target <= fp.objsize)
  }

  /** The disk filled up: the position is the end of the last cluster. */
  ghost predicate Stuck(fp: Fil, v: seq<Sector>, cs: seq<nat>, b: seq<Byte>, target: nat, i: nat)
    reads fp, fp.buf, fp.fs, fp.fs.win
  {
    && fp.Core() && GeometryOk(fp.fs.g, |v|) && fp.Bytes() == b && Grown(fp.fs.g, v, fp.fs.View(), cs, fp.chain, fp.sclust)
    && i + 1 == |fp.chain| && fp.chain[i] == fp.clust
    && fp.fptr == ClusterStart(fp.fs.g, i + 1) < target < U32
    && fp.canWrite && target > fp.objsize && (fp.fs.freeClst == 0 || NothingFree(Table(fp.fs.g, fp.fs.View())))
  }

  /** In read mode the chain goes on as long as the target lies beyond. */
  lemma MoreClustersBelow(g: Geometry, cs: seq<nat>, i: nat, target: nat, size: nat)
    requires g.csize > 0 && ClusterStart(g, i + 1) < target <= size && HasByte(g, cs, size - 1)
    ensures i + 1 < |cs|
  {
    ByteOfCluster(g, i + 1, 0);
    CoveredBelow(g, cs, ClusterStart(g, i + 1), size - 1);
  }

  /** One step to the next cluster. The answer is the code's clst. */
  method NextCluster(fp: Fil, clst: nat, ofs: nat, ghost v: seq<Sector>, ghost cs: seq<nat>, ghost b: seq<Byte>, ghost target: nat, ghost i: nat)
    returns (nxt: nat)
    requires Following(fp, v, cs, b, target, i, clst, ofs) && ofs > ClusterBytes(fp.fs.g)
    modifies fp.fs`disk, fp.fs`wflag, fp.fs`winsect, fp.fs`freeClst, fp.fs`lastClst, fp.fs`fsiDirty, fp.fs.win
    modifies fp`fptr, fp`clust, fp`sclust, fp`chain
    ensures fp.Core() && fp.Bytes() == b && GeometryOk(fp.fs.g, |v|)
    ensures old(Mirrored(fp.fs.g, fp.fs.disk)) ==> Mirrored(fp.fs.g, fp.fs.disk)
    ensures WindowKept(fp.fs.g, old(fp.fs.winsect), fp.fs.winsect)
    ensures nxt >= 2 ==> Following(fp, v, cs, b, target, i + 1, nxt, ofs - ClusterBytes(fp.fs.g))
    ensures nxt == 0 ==> Stuck(fp, v, cs, b, target, i)
    ensures nxt == 1 ==> HasErrorMark(fp.fs) && target > fp.objsize
    ensures Grown(fp.fs.g, v, fp.fs.View(), cs, fp.chain, fp.sclust)
    ensures fp.fs.View() == old(fp.fs.View()) || fp.canWrite
  {
    hide GeometryOk;
    hide InFirstFat;
    hide FatFs.View;
    hide FatFs.ValidWindow;
    hide Mirrored;
    hide Table;
    hide IsChain;
    hide BufferOk;
    hide WindowOk;
    hide Content;
    hide Grown;
    hide NothingFree;
    hide HasErrorMark;
    ghost var g, v1, cs1, h := fp.fs.g, fp.fs.View(), fp.chain, fp.sclust;
    SameFileGrown(fp);
    FileFacts(fp);
    assert fp.chain[i] in fp.chain;
    fp.fptr := fp.fptr + ClusterBytes(fp.fs.g);
    assert fp.fptr == ClusterStart(g, i + 1);
    if target <= fp.objsize { MoreClustersBelow(g, fp.chain, i, target, fp.objsize); }
    if fp.canWrite {
      nxt := CreateForFile(fp, clst, i);
    } else {
      NextInChain(fp, i);
      nxt := GetForFile(fp, clst);
    }
    GrownTrans(g, v, v1, fp.fs.View(), cs, cs1, fp.chain, h, fp.sclust);
    if nxt >= 2 { fp.clust := nxt; }
  }

  /** The cluster-following loop. */
  method FollowClusters(fp: Fil, clst0: nat, ofs0: nat, ghost v: seq<Sector>, ghost cs: seq<nat>, ghost b: seq<Byte>, ghost target: nat, ghost i0: nat)
    returns (res: FResult, clst: nat, ofs: nat, ghost i: nat)
    requires Following(fp, v, cs, b, target, i0, clst0, ofs0)
    modifies fp.fs`disk, fp.fs`wflag, fp.fs`winsect, fp.fs`freeClst, fp.fs`lastClst, fp.fs`fsiDirty, fp.fs.win
    modifies fp`fptr, fp`clust, fp`sclust, fp`chain, fp`err
    ensures fp.Core() && fp.Bytes() == b && GeometryOk(fp.fs.g, |v|)
    ensures old(Mirrored(fp.fs.g, fp.fs.disk)) ==> Mirrored(fp.fs.g, fp.fs.disk)
    ensures WindowKept(fp.fs.g, old(fp.fs.winsect), fp.fs.winsect)
    ensures Grown(fp.fs.g, v, fp.fs.View(), cs, fp.chain, fp.sclust)
    ensures res.FR_OK? && clst == 0 ==> ofs == 0 && Stuck(fp, v, cs, b, target, i)
    ensures res.FR_OK? && clst != 0 ==> ofs <= ClusterBytes(fp.fs.g) && Following(fp, v, cs, b, target, i, clst, ofs)
    ensures res.FR_OK? ==> fp.err == old(fp.err)
    ensures !res.FR_OK? ==> res.FR_INT_ERR? && fp.err == res && HasErrorMark(fp.fs) && target > fp.objsize
  {
    hide FatFs.View;
    hide FatFs.ValidWindow;
    hide Mirrored;
    hide Table;
    hide Grown;
    hide HasErrorMark;
    hide ChainOk;
    hide BufferOk;
    hide WindowOk;
    hide Content;
    hide NothingFree;
    hide ClusterStart;
    clst, ofs, i := clst0, ofs0, i0;
    FollowingClst(fp, v, cs, b, target, i, clst, ofs);
    while ofs > ClusterBytes(fp.fs.g)
      invariant fp.Core() && fp.Bytes() == b && clst >= 2 && Following(fp, v, cs, b, target, i, clst, ofs)
      invariant old(Mirrored(fp.fs.g, fp.fs.disk)) ==> Mirrored(fp.fs.g, fp.fs.disk)
      invariant WindowKept(fp.fs.g, old(fp.fs.winsect), fp.fs.winsect)
      invariant fp.err == old(fp.err)
    {
      clst := NextCluster(fp, clst, ofs, v, cs, b, target, i);
      if clst == 0 { return FR_OK, clst, 0, i; }
      if clst == 1 {
        fp.err := FR_INT_ERR;
        return FR_INT_ERR, clst, ofs, i;
      }
      ofs, i := ofs - ClusterBytes(fp.fs.g), i + 1;
    }
    res := FR_OK;
  }

  lemma FollowingClst(fp: Fil, v: seq<Sector>, cs: seq<nat>, b: seq<Byte>, target: nat, i: nat, clst: nat, ofs: nat)
    requires Following(fp, v, cs, b, target, i, clst, ofs)
    ensures clst >= 2
  {
    FileFacts(fp);
    assert fp.chain[i] in fp.chain;
  }

  /** Where the seek starts: in the current cluster when the target lies in it or
      behind it, else in the file's first cluster, which is created if need be. */
  method SeekStart(fp: Fil, ofs: nat) returns (clst: nat, rest: nat, ghost i: nat)
    requires fp.Valid() && 0 < ofs < U32 && (fp.canWrite || ofs <= fp.objsize)
    modifies fp.fs`disk, fp.fs`wflag, fp.fs`winsect, fp.fs`freeClst, fp.fs`lastClst, fp.fs`fsiDirty, fp.fs.win
    modifies fp`fptr, fp`clust, fp`sclust, fp`chain
    ensures fp.Core() && fp.Bytes() == old(fp.Bytes()) && GeometryOk(fp.fs.g, |old(fp.fs.View())|)
    ensures old(Mirrored(fp.fs.g, fp.fs.disk)) ==> Mirrored(fp.fs.g, fp.fs.disk)
    ensures WindowKept(fp.fs.g, old(fp.fs.winsect), fp.fs.winsect)
    ensures Grown(fp.fs.g, old(fp.fs.View()), fp.fs.View(), old(fp.chain), fp.chain, fp.sclust)
    ensures clst >= 2 ==> Following(fp, old(fp.fs.View()), old(fp.chain), old(fp.Bytes()), ofs, i, clst, rest)
    ensures clst == 0 ==> fp.chain == [] && fp.fptr == 0 && fp.canWrite && (fp.fs.freeClst == 0 || NothingFree(Table(fp.fs.g, fp.fs.View())))
    ensures clst == 1 ==> HasErrorMark(fp.fs)
    ensures clst < 2 ==> ofs > fp.objsize
  {
    hide GeometryOk;
    hide ClusterBase;
    hide FatFs.View;
    hide FatFs.ValidWindow;
    hide Mirrored;
    hide Table;
    hide IsChain;
    hide BufferOk;
    hide WindowOk;
    hide Content;
    hide NothingFree;
    hide HasErrorMark;
    SameFileGrown(fp);
    FileFacts(fp);
    var ifptr := fp.fptr;
    fp.fptr := 0;
    i, rest := 0, ofs;
    if ifptr > 0 && (ofs - 1) / ClusterBytes(fp.fs.g) >= (ifptr - 1) / ClusterBytes(fp.fs.g) {
      SeekForward(fp.fs.g, ofs, ifptr);
      i := ClusterIndex(fp.fs.g, (ifptr - 1) / SECTOR_SIZE);
      fp.fptr := (ifptr - 1) - (ifptr - 1) % ClusterBytes(fp.fs.g);
      rest := ofs - fp.fptr;
      clst := fp.clust;
      assert clst in fp.chain;
    } else {
      clst := fp.sclust;
      if clst == 0 {
        clst := CreateForFile(fp, 0, 0);
        if clst == 1 { return; }
      }
      fp.clust := clst;
    }
  }

  /** The current cluster starts at the position rounded down, not behind ofs. */
  lemma SeekForward(g: Geometry, ofs: nat, ifptr: nat)
    requires g.csize > 0 && ofs > 0 && ifptr > 0
    requires (ofs - 1) / ClusterBytes(g) >= (ifptr - 1) / ClusterBytes(g)
    ensures var start := (ifptr - 1) - (ifptr - 1) % ClusterBytes(g);
      start == ClusterStart(g, ClusterIndex(g, (ifptr - 1) / SECTOR_SIZE)) && start < ofs
  {
    ClusterOfByte(g, ifptr - 1);
    ClusterOfByte(g, ofs - 1);
    StartMonotone(g, (ifptr - 1) / ClusterBytes(g), (ofs - 1) / ClusterBytes(g));
  }

  /** The end of the file moves up to the position if that lies behind it. */
  method ExtendTo(fp: Fil)
    requires fp.Core() && fp.fptr < U32 && (fp.fptr > 0 ==> HasByte(fp.fs.g, fp.chain, fp.fptr - 1))
    modifies fp`objsize, fp`modified
    ensures fp.Core() && fp.objsize == Max(old(fp.objsize), fp.fptr)
    ensures fp.Bytes()[..old(fp.objsize)] == old(fp.Bytes())
  {
    hide FatFs.View;
    hide FatFs.ValidWindow;
    hide Table;
    hide IsChain;
    hide BufferOk;
    hide WindowOk;
    if fp.fptr > fp.objsize {
      fp.objsize := fp.fptr;
      fp.modified := true;
    }
    assert fp.Bytes()[..old(fp.objsize)] == old(fp.Bytes());
  }

  /** The position is fixed: clust is the cluster of the byte before it, and
      inside a sector nsect is that sector. */
  ghost predicate Arrived(fp: Fil, nsect: nat)
    requires fp.fs.g.csize > 0
    reads fp`fptr, fp`chain, fp`clust
  {
    && fp.fptr < U32
    && (fp.fptr > 0 ==> HasByte(fp.fs.g, fp.chain, fp.fptr - 1) && fp.clust == fp.chain[ClusterIndex(fp.fs.g, (fp.fptr - 1) / SECTOR_SIZE)])
    && (fp.fptr % SECTOR_SIZE != 0 ==> HasByte(fp.fs.g, fp.chain, fp.fptr) && nsect == SectorOf(fp.fs.g, fp.chain, fp.fptr / SECTOR_SIZE))
  }

  /** The end of f_lseek: the position is fixed; inside a sector the buffer is
      brought to that sector, written back first if it is dirty. */
  method Settle(fp: Fil, nsect: nat, ghost target: nat)
    requires fp.Core() && Arrived(fp, nsect) && Reached(fp, target)
    modifies fp.fs`disk, fp.buf, fp`dirty, fp`sect, fp`objsize, fp`modified
    ensures fp.Valid() && Reached(fp, target)
    ensures fp.objsize == Max(old(fp.objsize), fp.fptr)
    ensures fp.Bytes()[..old(fp.objsize)] == old(fp.Bytes())
    ensures Grown(fp.fs.g, old(fp.fs.View()), fp.fs.View(), fp.chain, fp.chain, fp.sclust)
    ensures old(Mirrored(fp.fs.g, fp.fs.disk)) ==> Mirrored(fp.fs.g, fp.fs.disk)
  {
    hide Grown;
    hide FatFs.View;
    hide FatFs.ValidWindow;
    hide Mirrored;
    hide Table;
    hide ChainOk;
    hide BufferOk;
    hide WindowOk;
    hide Content;
    hide SectorOf;
    hide ClusterIndex;
    ExtendTo(fp);
    SameFileGrown(fp);
    if fp.fptr % SECTOR_SIZE != 0 && nsect != fp.sect {
      FlushAndLoad(fp, nsect, fp.fptr / SECTOR_SIZE);
    }
  }

  /** Arriving ofs bytes into cluster i. */
  lemma Arrive(g: Geometry, cs: seq<nat>, i: nat, ofs: nat)
    requires g.csize > 0 && i < |cs| && 1 <= ofs <= ClusterBytes(g)
    ensures var p := ClusterStart(g, i) + ofs;
      && HasByte(g, cs, p - 1) && ClusterIndex(g, (p - 1) / SECTOR_SIZE) == i
      && p % SECTOR_SIZE == ofs % SECTOR_SIZE && (ofs == ClusterBytes(g) ==> p == ClusterStart(g, i + 1))
      && (ofs % SECTOR_SIZE != 0 ==> HasByte(g, cs, p) && SectorOf(g, cs, p / SECTOR_SIZE) == ClusterBase(g, cs[i]) + ofs / SECTOR_SIZE)
  {
    ByteOfCluster(g, i, ofs - 1);
    if ofs < ClusterBytes(g) {
      ByteOfCluster(g, i, ofs);
    } else {
      ByteOfCluster(g, i + 1, 0);
      assert ofs % SECTOR_SIZE == 0;
    }
  }

  /** f_lseek from a position behind which the target lies: the loop and its end. */
  method SeekAlong(fp: Fil, clst0: nat, ofs0: nat, ghost v: seq<Sector>, ghost cs: seq<nat>, ghost b: seq<Byte>, ghost target: nat, ghost i0: nat)
    returns (res: FResult, nsect: nat)
    requires Following(fp, v, cs, b, target, i0, clst0, ofs0)
    modifies fp.fs`disk, fp.fs`wflag, fp.fs`winsect, fp.fs`freeClst, fp.fs`lastClst, fp.fs`fsiDirty, fp.fs.win
    modifies fp`fptr, fp`clust, fp`sclust, fp`chain, fp`err
    ensures fp.Core() && fp.Bytes() == b && GeometryOk(fp.fs.g, |v|)
    ensures old(Mirrored(fp.fs.g, fp.fs.disk)) ==> Mirrored(fp.fs.g, fp.fs.disk)
    ensures WindowKept(fp.fs.g, old(fp.fs.winsect), fp.fs.winsect)
    ensures Grown(fp.fs.g, v, fp.fs.View(), cs, fp.chain, fp.sclust)
    ensures res.FR_OK? ==> Arrived(fp, nsect) && fp.err == old(fp.err)
    ensures res.FR_OK? ==> Reached(fp, target)
    ensures !res.FR_OK? ==> res.FR_INT_ERR? && fp.err == res && HasErrorMark(fp.fs) && target > fp.objsize
  {
    hide FatFs.View;
    hide FatFs.ValidWindow;
    hide Mirrored;
    hide Table;
    hide Grown;
    hide HasErrorMark;
    hide ChainOk;
    hide BufferOk;
    hide WindowOk;
    hide Content;
    hide NothingFree;
    hide SectorOf;
    hide ClusterIndex;
    hide Fil.Core;
    hide Fil.Bytes;
    nsect := 0;
    var clst, ofs;
    ghost var i;
    res, clst, ofs, i := FollowClusters(fp, clst0, ofs0, v, cs, b, target, i0);
    if res.FR_OK? {
      nsect := Land(fp, clst, ofs, v, cs, b, target, i);
    }
  }

  /** The last step of the walk: go ofs bytes into the cluster it ended in. */
  method Land(fp: Fil, clst: nat, ofs: nat, ghost v: seq<Sector>, ghost cs: seq<nat>, ghost b: seq<Byte>, ghost target: nat, ghost i: nat)
    returns (nsect: nat)
    requires if clst == 0 then ofs == 0 && Stuck(fp, v, cs, b, target, i)
             else ofs <= ClusterBytes(fp.fs.g) && Following(fp, v, cs, b, target, i, clst, ofs)
    modifies fp`fptr
    ensures fp.Core() && fp.Bytes() == b && Arrived(fp, nsect) && Reached(fp, target)
  {
    hide GeometryOk, Clst2Sect, ClusterBase;
    hide ClusterStart;
    hide FatFs.View;
    hide FatFs.ValidWindow;
    hide Table;
    hide Grown;
    hide ChainOk;
    hide BufferOk;
    hide WindowOk;
    hide Content;
    hide NothingFree;
    hide SectorOf;
    hide ClusterIndex;
    hide HasByte;
    FileFacts(fp);
    Arrive(fp.fs.g, fp.chain, i, if clst == 0 then ClusterBytes(fp.fs.g) else ofs);
    assert fp.chain[i] in fp.chain;
    nsect := 0;
    fp.fptr := fp.fptr + ofs;
    if ofs % SECTOR_SIZE != 0 {
      nsect := Clst2Sect(fp.fs.g, clst) + ofs / SECTOR_SIZE;
    }
  }

  /** The seek got to its target or, for a target beyond the end of the file, to
      the end of the last cluster of a full disk. */
  ghost predicate Reached(fp: Fil, target: nat)
    requires fp.fs.ValidWindow()
    reads fp`fptr, fp`objsize, fp`chain, fp.fs`freeClst, fp.fs`disk, fp.fs`winsect, fp.fs`wflag, fp.fs.win
  {
    || fp.fptr == target
    || (fp.fptr < target && target > fp.objsize && fp.canWrite && fp.fptr == ClusterStart(fp.fs.g, |fp.chain|) &&
        (fp.fs.freeClst == 0 || NothingFree(Table(fp.fs.g, fp.fs.View()))))
  }

  /** f_lseek: the position becomes the target, clipped at the end of the file
      unless the file is writable; then the chain is stretched as far as there are
      free clusters and the file grows. On both paths, from the current cluster
      and from the start, the file ends up in order, with clust at chain index
      (fptr - 1) / cluster size. The bytes the file had stay. */
  method FLseek(fp: Fil, ofs: nat) returns (res: FResult)
    requires fp.Valid() && ofs < U32
    modifies fp.fs`disk, fp.fs`wflag, fp.fs`winsect, fp.fs`freeClst, fp.fs`lastClst, fp.fs`fsiDirty, fp.fs.win
    modifies fp.buf, fp`dirty, fp`sect, fp`fptr, fp`objsize, fp`clust, fp`sclust, fp`chain, fp`err, fp`modified, fp`adrift
    ensures fp.Core() && fp.objsize >= old(fp.objsize) && fp.Bytes()[..old(fp.objsize)] == old(fp.Bytes())
    ensures Grown(fp.fs.g, old(fp.fs.View()), fp.fs.View(), old(fp.chain), fp.chain, fp.sclust)
    ensures old(Mirrored(fp.fs.g, fp.fs.disk)) ==> Mirrored(fp.fs.g, fp.fs.disk)
    ensures WindowKept(fp.fs.g, old(fp.fs.winsect), fp.fs.winsect)
    ensures old(fp.Owned()) ==> fp.Owned()
    ensures old(fp.err) != FR_OK ==> res == old(fp.err) == fp.err && fp.Valid() && fp.fptr == old(fp.fptr)
    ensures old(fp.err) == FR_OK && res != FR_OK ==> res.FR_INT_ERR? && fp.err == res && HasErrorMark(fp.fs) && ofs > old(fp.objsize)
    ensures res == FR_OK ==> fp.err == FR_OK
    ensures old(fp.err) == FR_OK && ofs <= old(fp.objsize) ==> res == FR_OK && fp.fptr == ofs
    ensures res == FR_OK ==>
      var target := if ofs > old(fp.objsize) && !fp.canWrite then old(fp.objsize) else ofs;
      fp.Valid() && fp.objsize == Max(old(fp.objsize), fp.fptr) && Reached(fp, target)
  {
    hide FatFs.View;
    hide FatFs.ValidWindow;
    hide Mirrored;
    hide Table;
    hide HasErrorMark;
    hide ChainOk;
    hide BufferOk;
    hide WindowOk;
    hide Content;
    hide NothingFree;
    hide SectorOf;
    hide ClusterIndex;
    hide At;
    hide HasByte;
    hide BufferOwned;
    NoteBuffer(fp);
    SameFileGrown(fp);
    if fp.err != FR_OK { return fp.err; }
    var target := if ofs > fp.objsize && !fp.canWrite then fp.objsize else ofs;
    res := SeekTo(fp, target);
  }

  method Rewind(fp: Fil)
    requires fp.Core()
    modifies fp`fptr
    ensures fp.Core() && fp.fptr == 0 && fp.Bytes() == old(fp.Bytes())
  {
    fp.fptr := 0;
  }

  /** ABORT: the error sticks to the file object. */
  method Abort(fp: Fil)
    requires fp.Core()
    modifies fp`err
    ensures fp.Core() && fp.err == FR_INT_ERR && fp.Bytes() == old(fp.Bytes())
  {
    fp.err := FR_INT_ERR;
  }

  method SeekTo(fp: Fil, target: nat) returns (res: FResult)
    requires fp.Valid() && fp.err == FR_OK && target < U32 && (fp.canWrite || target <= fp.objsize)
    modifies fp.fs`disk, fp.fs`wflag, fp.fs`winsect, fp.fs`freeClst, fp.fs`lastClst, fp.fs`fsiDirty, fp.fs.win
    modifies fp.buf, fp`dirty, fp`sect, fp`fptr, fp`objsize, fp`clust, fp`sclust, fp`chain, fp`err, fp`modified
    ensures fp.Core() && fp.objsize >= old(fp.objsize) && fp.Bytes()[..old(fp.objsize)] == old(fp.Bytes())
    ensures Grown(fp.fs.g, old(fp.fs.View()), fp.fs.View(), old(fp.chain), fp.chain, fp.sclust)
    ensures old(Mirrored(fp.fs.g, fp.fs.disk)) ==> Mirrored(fp.fs.g, fp.fs.disk)
    ensures WindowKept(fp.fs.g, old(fp.fs.winsect), fp.fs.winsect)
    ensures res != FR_OK ==> res.FR_INT_ERR? && fp.err == res && HasErrorMark(fp.fs) && target > old(fp.objsize)
    ensures res == FR_OK ==> fp.Valid() && fp.objsize == Max(old(fp.objsize), fp.fptr) && Reached(fp, target) && fp.err == FR_OK
  {
    hide FatFs.View;
    hide FatFs.ValidWindow;
    hide Mirrored;
    hide Table;
    hide HasErrorMark;
    hide ChainOk;
    hide BufferOk;
    hide WindowOk;
    hide Content;
    hide NothingFree;
    hide SectorOf;
    hide ClusterIndex;
    hide At;
    hide HasByte;
    hide Fil.Bytes;
    hide Fil.Core;
    SameFileGrown(fp);
    ghost var g, v, cs, b := fp.fs.g, fp.fs.View(), fp.chain, fp.Bytes();
    var nsect := 0;
    if target == 0 {
      Rewind(fp);
    } else {
      var clst, rest;
      ghost var i;
      clst, rest, i := SeekStart(fp, target);
      if clst == 1 {
        Abort(fp);
        return FR_INT_ERR;
      }
      if clst != 0 {
        res, nsect := SeekAlong(fp, clst, rest, v, cs, b, target, i);
        if res != FR_OK { return; }
      }
    }
    ghost var v1, cs1, h := fp.fs.View(), fp.chain, fp.sclust;
    Settle(fp, nsect, target);
    GrownTrans(g, v, v1, fp.fs.View(), cs, cs1, cs1, h, fp.sclust);
    res := FR_OK;
  }
}

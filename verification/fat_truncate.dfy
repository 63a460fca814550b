/** f_truncate (src/fs/fat32/ff.cpp). */
module FatTruncate {
  import opened Arith
  import opened FatVolume
  import opened FatTable
  import opened FatChains
  import opened FatAlloc
  import opened FatLayout
  import opened FatIo
  import opened FatFile
  import opened FatRead

  /** What remove_chain does to the chain it cuts (i + 1 clusters stay) or
      releases whole (keep == 0). */
  lemma RemoveOnChain(s: Alloc, clst: nat, pclst: nat, eoc: nat, res: FResult, s': Alloc, cs: seq<nat>, keep: nat)
    requires RemoveStep(s, clst, pclst, eoc, res, s') && eoc >= |s.fat|
    requires IsChain(s.fat, cs) && keep < |cs| && clst == cs[keep] && pclst == if keep == 0 then 0 else cs[keep - 1]
    ensures res.FR_OK? && ChainReplaced(s.fat, s'.fat, cs[0], cs, cs[..keep])
  {
    assert InRange(s.fat, cs[keep]);
    if keep == 0 {
      ReleaseTail(s.fat, cs);
      assert cs[..0] == [];
    } else {
      assert InRange(s.fat, cs[keep - 1]);
      CutReplaces(s.fat, cs, keep - 1, eoc);
    }
  }

  /** The clusters of a prefix are clusters of the whole. */
  lemma PrefixFacts(g: Geometry, cs: seq<nat>, keep: nat)
    requires keep <= |cs| && ClustersInRange(g, cs)
    ensures ClustersInRange(g, cs[..keep])
    ensures forall s: nat :: InClusters(g, cs[..keep], s) ==> InClusters(g, cs, s)
  {
    assert forall c :: c in cs[..keep] ==> c in cs;
    forall s: nat | InClusters(g, cs[..keep], s) ensures InClusters(g, cs, s) {
      var c :| c in cs[..keep] && InCluster(g, c, s);
      assert c in cs;
    }
  }

  /** The bytes covered by a prefix of the chain, when nothing outside the FAT
      has changed. */
  lemma PrefixContent(g: Geometry, e: seq<Sector>, e': seq<Sector>, cs: seq<nat>, keep: nat, size: nat, size': nat)
    requires GeometryOk(g, |e|) && ClustersInRange(g, cs) && keep <= |cs| && SameOutsideFat(g, e, e')
    requires size' <= size && (size' > 0 ==> HasByte(g, cs[..keep], size' - 1))
    ensures Content(g, e', cs[..keep], size') == Content(g, e, cs, size)[..size']
  {
    PrefixFacts(g, cs, keep);
    DataOutsideFat(g, e, e', cs[..keep]);
    SameClustersSameContent(g, cs[..keep], cs[..keep], e, e', size');
    forall p | 0 <= p < size' ensures ByteAt(g, e, cs[..keep], p) == ByteAt(g, e, cs, p) {
      CoveredBelow(g, cs[..keep], p, size' - 1);
      PrefixKeepsSectors(g, cs[..keep], cs, p / SECTOR_SIZE);
    }
  }

  /** Which clusters the file keeps. */
  ghost function Kept(g: Geometry, fptr: nat): nat
    requires g.csize > 0
  {
    if fptr == 0 then 0 else ClusterIndex(g, (fptr - 1) / SECTOR_SIZE) + 1
  }

  /** remove_chain called for this file, to keep its first keep clusters. */
  method RemoveForFile(fp: Fil, clst: nat, pclst: nat, ghost keep: nat) returns (res: FResult)
    requires fp.Core() && keep < |fp.chain| && clst == fp.chain[keep] && pclst == if keep == 0 then 0 else fp.chain[keep - 1]
    modifies fp.fs`disk, fp.fs`wflag, fp.fs`winsect, fp.fs`freeClst, fp.fs`fsiDirty, fp.fs.win
    ensures fp.fs.Valid() && SameOutsideFat(fp.fs.g, old(fp.fs.View()), fp.fs.View()) && res.FR_OK? && WindowInFat(fp.fs)
    ensures ChainReplaced(Table(fp.fs.g, old(fp.fs.View())), Table(fp.fs.g, fp.fs.View()), fp.chain[0], fp.chain, fp.chain[..keep])
    ensures old(Mirrored(fp.fs.g, fp.fs.disk)) ==> Mirrored(fp.fs.g, fp.fs.disk)
  {
    hide FatFs.View;
    hide FatFs.ValidWindow;
    hide Mirrored;
    hide Table;
    hide BufferOk;
    hide WindowOk;
    hide WindowInFat;
    hide ChainReplaced;
    hide RemoveStep;
    FileFacts(fp);
    EndMarkReadsAsEnd(fp.fs.g, |fp.fs.disk|);
    ghost var s := State(fp.fs);
    assert IsChain(s.fat, fp.chain);
    assert clst in fp.chain && (keep > 0 ==> pclst in fp.chain);
    res := RemoveChain(fp.fs, clst, pclst);
    RemoveOnChain(s, clst, pclst, Eoc(fp.fs.g), res, State(fp.fs), fp.chain, keep);
  }

  /** The chain part of f_truncate: release what lies behind the position. */
  method ReleaseBehind(fp: Fil) returns (res: FResult)
    requires fp.Valid() && fp.fptr < fp.objsize
    modifies fp.fs`disk, fp.fs`wflag, fp.fs`winsect, fp.fs`freeClst, fp.fs`fsiDirty, fp.fs.win, fp`sclust
    ensures fp.fs.Valid() && SameOutsideFat(fp.fs.g, old(fp.fs.View()), fp.fs.View()) && res.FR_OK? && WindowInFat(fp.fs)
    ensures var keep := Kept(fp.fs.g, fp.fptr);
      && keep <= |fp.chain| && fp.chain != []
      && ChainReplaced(Table(fp.fs.g, old(fp.fs.View())), Table(fp.fs.g, fp.fs.View()), fp.chain[0], fp.chain, fp.chain[..keep])
    ensures fp.sclust == if fp.fptr == 0 then 0 else old(fp.sclust)
    ensures old(Mirrored(fp.fs.g, fp.fs.disk)) ==> Mirrored(fp.fs.g, fp.fs.disk)
  {
    hide IsChain;
    hide FatFs.View;
    hide FatFs.ValidWindow;
    hide Mirrored;
    hide Table;
    hide BufferOk;
    hide WindowOk;
    hide WindowInFat;
    hide SectorOf;
    hide ClusterIndex;
    hide ChainReplaced;
    ghost var g, v, cs, fat := fp.fs.g, fp.fs.View(), fp.chain, Table(fp.fs.g, fp.fs.View());
    ghost var keep := Kept(g, fp.fptr);
    assert IsChain(fat, cs) && cs[0] == fp.sclust;
    if fp.fptr == 0 {
      res := RemoveForFile(fp, fp.sclust, 0, 0);
      fp.sclust := 0;
    } else {
      assert fp.clust == cs[keep - 1];
      ChainLink(fat, cs, keep - 1);
      NothingReplaced(fat, cs);
      var ncl := GetForFile(fp, fp.clust);
      res := FR_OK;
      SameOutsideFatRefl(g, v);
      if ncl == 1 { res := FR_INT_ERR; }
      if res.FR_OK? && ncl < fp.fs.g.nFatent {
        res := RemoveForFile(fp, ncl, fp.clust, keep);
      } else {
        assert cs[..keep] == cs;
      }
    }
  }

  lemma NothingReplaced(fat: Fat, cs: seq<nat>)
    requires IsChain(fat, cs)
    ensures ChainReplaced(fat, fat, cs[0], cs, cs)
  {
    forall x | x in cs ensures InRange(fat, x) { MemberIsUsed(fat, cs, x); }
  }

  /** The position in the chain after the cut. */
  lemma CutAtOk(g: Geometry, cs: seq<nat>, fptr: nat, clust: nat, sect: nat)
    requires g.csize > 0 && At(g, cs, fptr, clust, sect) && Kept(g, fptr) <= |cs|
    ensures At(g, cs[..Kept(g, fptr)], fptr, clust, sect)
    ensures fptr > 0 ==> HasByte(g, cs[..Kept(g, fptr)], fptr - 1)
  {
    hide SectorOf;
    var keep := Kept(g, fptr);
    if fptr % SECTOR_SIZE != 0 {
      DivModIs(fptr - 1, SECTOR_SIZE, fptr / SECTOR_SIZE, fptr % SECTOR_SIZE - 1);
      assert HasSector(g, cs[..keep], fptr / SECTOR_SIZE);
      PrefixKeepsSectors(g, cs[..keep], cs, fptr / SECTOR_SIZE);
    }
  }

  /** The chain after the cut. */
  lemma CutChainOk(g: Geometry, v: seq<Sector>, v1: seq<Sector>, v2: seq<Sector>, cs: seq<nat>, fptr: nat)
    requires GeometryOk(g, |v|) && |v1| == |v| && cs != [] && Kept(g, fptr) <= |cs| && cs[0] != 0
    requires ChainReplaced(Table(g, v), Table(g, v1), cs[0], cs, cs[..Kept(g, fptr)])
    requires DataOnly(g, v1, v2) && (fptr > 0 ==> HasByte(g, cs[..Kept(g, fptr)], fptr - 1))
    ensures ChainOk(g, v2, cs[..Kept(g, fptr)], if fptr == 0 then 0 else cs[0], fptr)
    ensures Table(g, v2) == Table(g, v1)
  {
    DataOnlyTable(g, v1, v2);
  }

  /** Flushing or not, the volume now is what the file saw, outside the FAT. */
  lemma FlushedOutsideFat(g: Geometry, v: seq<Sector>, v1: seq<Sector>, cs: seq<nat>, sect: nat, dirty: bool, buf: Sector)
    requires GeometryOk(g, |v|) && SameOutsideFat(g, v, v1) && BufferOk(g, v, cs, sect, dirty, buf)
    ensures var e, v2 := if dirty then v[sect := buf] else v, if dirty then v1[sect := buf] else v1;
      && SameOutsideFat(g, e, v2) && DataOnly(g, v1, v2) && BufferOk(g, v2, cs, sect, false, buf)
      && (dirty ==> InClusters(g, cs, sect))
  {
    OverlayOutsideFat(g, v, v1, dirty, sect, buf);
    if sect != 0 { DataSectorOutsideFat(g, |v|, sect); }
  }

  /** Outside the FAT only the file's old clusters can have changed. */
  lemma TruncatedOthers(g: Geometry, v: seq<Sector>, v1: seq<Sector>, cs: seq<nat>, sect: nat, dirty: bool, buf: Sector)
    requires SameOutsideFat(g, v, v1) && (dirty ==> sect < |v| && InClusters(g, cs, sect))
    ensures OthersKept(g, v, if dirty then v1[sect := buf] else v1, cs)
  {
    hide InClusters;
  }

  /** f_truncate: the file ends at its position. The clusters behind it are free
      again, the chain keeps its front, and no other entry of the table and no
      other file's data changed. On a file in order it cannot fail. */
  method FTruncate(fp: Fil) returns (res: FResult)
    requires fp.Valid()
    modifies fp.fs`disk, fp.fs`wflag, fp.fs`winsect, fp.fs`freeClst, fp.fs`fsiDirty, fp.fs.win
    modifies fp`sclust, fp`objsize, fp`modified, fp`dirty, fp`chain, fp`adrift
    ensures fp.Valid()
    ensures res == if fp.err != FR_OK then fp.err else if !fp.canWrite then FR_DENIED else FR_OK
    ensures res == FR_OK ==> fp.objsize == fp.fptr && fp.Bytes() == old(fp.Bytes())[..fp.fptr]
    ensures res != FR_OK ==> fp.Bytes() == old(fp.Bytes()) && fp.chain == old(fp.chain)
    ensures fp.chain <= old(fp.chain)
    ensures OthersKept(fp.fs.g, old(fp.fs.View()), fp.fs.View(), old(fp.chain))
    ensures ChainReplaced(Table(fp.fs.g, old(fp.fs.View())), Table(fp.fs.g, fp.fs.View()), old(fp.sclust), old(fp.chain), fp.chain)
    ensures res == FR_OK && fp.fptr < old(fp.objsize) ==> |fp.chain| == Kept(fp.fs.g, fp.fptr) && !fp.dirty
    ensures old(Mirrored(fp.fs.g, fp.fs.disk)) ==> Mirrored(fp.fs.g, fp.fs.disk)
    ensures WindowKept(fp.fs.g, old(fp.fs.winsect), fp.fs.winsect)
  {
    hide FatFs.View;
    hide FatFs.ValidWindow;
    hide Mirrored;
    hide Table;
    hide IsChain;
    hide SectorOf;
    hide ClusterIndex;
    SameFileGrown(fp);
    if fp.err != FR_OK { return fp.err; }
    if !fp.canWrite { return FR_DENIED; }
    res := FR_OK;
    if fp.fptr < fp.objsize {
      TruncateBelow(fp);
    }
  }

  /** The file after its chain was cut (v1) and its buffer written back (v2). */
  lemma TruncateAfter(g: Geometry, v: seq<Sector>, v1: seq<Sector>, e: seq<Sector>, v2: seq<Sector>, cs: seq<nat>, keep: nat,
                      size: nat, fptr: nat, clust: nat, sect: nat, dirty: bool, buf: Sector, w: nat)
    requires GeometryOk(g, |v|) && ClustersInRange(g, cs) && cs != [] && fptr < size && At(g, cs, fptr, clust, sect)
    requires SameOutsideFat(g, v, v1) && BufferOk(g, v, cs, sect, dirty, buf) && keep == Kept(g, fptr) <= |cs|
    requires e == (if dirty then v[sect := buf] else v) && v2 == if dirty then v1[sect := buf] else v1
    requires ChainReplaced(Table(g, v), Table(g, v1), cs[0], cs, cs[..keep])
    requires w < |v| && InFirstFat(g, w)
    ensures ChainOk(g, v2, cs[..keep], if fptr == 0 then 0 else cs[0], fptr)
    ensures At(g, cs[..keep], fptr, clust, sect)
    ensures BufferOk(g, v2, cs[..keep], sect, false, buf) && WindowOk(g, cs[..keep], sect, w)
    ensures OthersKept(g, v, v2, cs) && Table(g, v2) == Table(g, v1)
    ensures Content(g, v2, cs[..keep], fptr) == Content(g, e, cs, size)[..fptr]
  {
    hide Table;
    hide IsChain;
    assert cs[0] in cs;
    FlushedOutsideFat(g, v, v1, cs, sect, dirty, buf);
    TruncatedOthers(g, v, v1, cs, sect, dirty, buf);
    CutAtOk(g, cs, fptr, clust, sect);
    CutChainOk(g, v, v1, v2, cs, fptr);
    PrefixFacts(g, cs, keep);
    FatWindowOk(g, |v|, cs[..keep], sect, w);
    PrefixContent(g, e, v2, cs, keep, size, fptr);
  }

  method TruncateBelow(fp: Fil)
    requires fp.Valid() && fp.fptr < fp.objsize
    modifies fp.fs`disk, fp.fs`wflag, fp.fs`winsect, fp.fs`freeClst, fp.fs`fsiDirty, fp.fs.win
    modifies fp`sclust, fp`objsize, fp`modified, fp`dirty, fp`chain, fp`adrift
    ensures fp.Valid()
    ensures fp.objsize == fp.fptr && fp.Bytes() == old(fp.Bytes())[..fp.fptr]
    ensures fp.chain <= old(fp.chain) && |fp.chain| == Kept(fp.fs.g, fp.fptr) && !fp.dirty
    ensures OthersKept(fp.fs.g, old(fp.fs.View()), fp.fs.View(), old(fp.chain))
    ensures ChainReplaced(Table(fp.fs.g, old(fp.fs.View())), Table(fp.fs.g, fp.fs.View()), old(fp.sclust), old(fp.chain), fp.chain)
    ensures old(Mirrored(fp.fs.g, fp.fs.disk)) ==> Mirrored(fp.fs.g, fp.fs.disk)
    ensures WindowKept(fp.fs.g, old(fp.fs.winsect), fp.fs.winsect)
  {
    hide ClusterBase;
    hide FatFs.View;
    hide FatFs.ValidWindow;
    hide Mirrored;
    hide Table;
    hide IsChain;
    hide ClusterIndex;
    hide Content;
    hide At;
    hide InClusters;
    hide HasByte;
    hide BufferOk;
    hide ChainReplaced;
    hide OthersKept;
    hide ClustersInRange;
    hide WindowOk;
    hide Kept;
    hide BufferOwned;
    hide GeometryOk;
    hide InFirstFat;
    ghost var g, v, cs, size, dirty, buf := fp.fs.g, fp.fs.View(), fp.chain, fp.objsize, fp.dirty, fp.buf[..];
    FileFacts(fp);
    var res := ReleaseBehind(fp);
    assert |fp.fs.disk| == |v|;
    ghost var v1 := fp.fs.View();
    ghost var e, v2 := if dirty then v[fp.sect := buf] else v, if dirty then v1[fp.sect := buf] else v1;
    TruncateAfter(g, v, v1, e, v2, cs, Kept(g, fp.fptr), size, fp.fptr, fp.clust, fp.sect, dirty, buf, fp.fs.winsect);
    TruncateBypass(g, v, cs, fp.sect, dirty, buf, fp.fs.winsect);
    EndAtPosition(fp, v2, cs[..Kept(g, fp.fptr)]);
  }

  /** The end of f_truncate: the size becomes the position and the dirty buffer is
      written back, which gives the volume v2 with the file's chain cs. */
  method EndAtPosition(fp: Fil, ghost v2: seq<Sector>, ghost cs: seq<nat>)
    requires fp.fs.Valid() && fp.buf.Length == SECTOR_SIZE && fp.buf != fp.fs.win && fp.fptr < U32
    requires fp.dirty ==> Bypasses(fp.fs, fp.sect)
    requires v2 == if fp.dirty then fp.fs.View()[fp.sect := fp.buf[..]] else fp.fs.View()
    requires ChainOk(fp.fs.g, v2, cs, fp.sclust, fp.fptr) && At(fp.fs.g, cs, fp.fptr, fp.clust, fp.sect)
    requires BufferOk(fp.fs.g, v2, cs, fp.sect, false, fp.buf[..]) && WindowOk(fp.fs.g, cs, fp.sect, fp.fs.winsect)
    modifies fp.fs`disk, fp`objsize, fp`modified, fp`dirty, fp`chain, fp`adrift
    ensures fp.Valid() && !fp.dirty && fp.objsize == fp.fptr && fp.chain == cs && fp.fs.View() == v2
    ensures fp.Bytes() == Content(fp.fs.g, v2, cs, fp.fptr)
    ensures old(Mirrored(fp.fs.g, fp.fs.disk)) ==> Mirrored(fp.fs.g, fp.fs.disk)
  {
    hide FatFs.View;
    hide FatFs.ValidWindow;
    hide Mirrored;
    hide Table;
    hide ChainOk;
    hide BufferOk;
    hide BufferOwned;
    hide WindowOk;
    hide At;
    hide Content;
    hide GeometryOk;
    fp.objsize := fp.fptr;
    fp.modified := true;
    WriteBack(fp);
    fp.chain := cs;
    fp.adrift := true;
  }

  /** The write-back that ends f_truncate: the buffered sector may belong to a
      cluster that has just been released. */
  method WriteBack(fp: Fil)
    requires fp.fs.Valid() && fp.buf.Length == SECTOR_SIZE && (fp.dirty ==> Bypasses(fp.fs, fp.sect))
    modifies fp.fs`disk, fp`dirty
    ensures fp.fs.Valid() && !fp.dirty
    ensures fp.fs.View() == if old(fp.dirty) then old(fp.fs.View())[fp.sect := fp.buf[..]] else old(fp.fs.View())
    ensures old(Mirrored(fp.fs.g, fp.fs.disk)) ==> Mirrored(fp.fs.g, fp.fs.disk)
  {
    hide FatFs.View;
    hide FatFs.ValidWindow;
    hide Mirrored;
    if fp.dirty {
      WriteSector(fp.fs, fp.buf[..], fp.sect);
      fp.dirty := false;
    }
  }

  /** A dirty buffer's sector is not the one in the window. */
  lemma TruncateBypass(g: Geometry, v: seq<Sector>, cs: seq<nat>, sect: nat, dirty: bool, buf: seq<Byte>, w: nat)
    requires GeometryOk(g, |v|) && BufferOk(g, v, cs, sect, dirty, buf) && w < |v| && InFirstFat(g, w)
    ensures dirty ==> g.database <= sect < |v| && sect != w
  {
    FirstFatIsInterval(g, |v|, w);
  }
}

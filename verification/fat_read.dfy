/** f_read (src/fs/fat32/ff.cpp), round by round of its transfer loop. */
module FatRead {
  import opened Arith
  import opened FatVolume
  import opened FatTable
  import opened FatChains
  import opened FatAlloc
  import opened FatLayout
  import opened FatIo
  import opened FatFile

  /** get_fat called for this file: the file does not change. */
  method GetForFile(fp: Fil, clst: nat) returns (val: nat)
    requires fp.Core() && 2 <= clst < fp.fs.g.nFatent
    modifies fp.fs`disk, fp.fs`wflag, fp.fs`winsect, fp.fs.win
    ensures fp.Core() && fp.fs.View() == old(fp.fs.View()) && fp.Eff() == old(fp.Eff())
    ensures val == Table(fp.fs.g, fp.fs.View())[clst] && WindowInFat(fp.fs)
    ensures old(Mirrored(fp.fs.g, fp.fs.disk)) ==> Mirrored(fp.fs.g, fp.fs.disk)
  {
    hide FatFs.View;
    hide FatFs.ValidWindow;
    hide Mirrored;
    hide Table;
    hide IsChain;
    FileFacts(fp);
    val := GetFat(fp.fs, clst);
    FatWindowOk(fp.fs.g, |fp.fs.disk|, fp.chain, fp.sect, fp.fs.winsect);
  }

  /** The successor of the cluster at index i of the file's chain. */
  lemma NextInChain(fp: Fil, i: nat)
    requires fp.Core() && i + 1 < |fp.chain|
    ensures 2 <= fp.chain[i] < fp.fs.g.nFatent
    ensures Table(fp.fs.g, fp.fs.View())[fp.chain[i]] == fp.chain[i + 1] >= 2
    ensures fp.chain[i + 1] < fp.fs.g.nFatent
  {
    hide Table;
    assert InRange(Table(fp.fs.g, fp.fs.View()), fp.chain[i]);
    assert InRange(Table(fp.fs.g, fp.fs.View()), fp.chain[i + 1]);
  }

  /** The head of the loop on a cluster boundary. Below the end of the file the
      chain always goes on, so the code's checks for 1 and a disk error pass. */
  method ClusterForRead(fp: Fil)
    requires fp.Valid() && fp.fptr < fp.objsize
    requires fp.fptr % SECTOR_SIZE == 0 && SectorInCluster(fp.fs.g, fp.fptr / SECTOR_SIZE) == 0
    modifies fp.fs`disk, fp.fs`wflag, fp.fs`winsect, fp.fs.win, fp`clust
    ensures fp.Core() && Ready(fp) && fp.clust >= 2
    ensures fp.fs.View() == old(fp.fs.View()) && fp.Eff() == old(fp.Eff())
    ensures old(Mirrored(fp.fs.g, fp.fs.disk)) ==> Mirrored(fp.fs.g, fp.fs.disk)
    ensures WindowKept(fp.fs.g, old(fp.fs.winsect), fp.fs.winsect)
  {
    hide FatFs.View;
    hide FatFs.ValidWindow;
    hide Mirrored;
    hide Table;
    hide IsChain;
    hide BufferOk;
    hide WindowOk;
    hide SectorOf;
    CoveredBelow(fp.fs.g, fp.chain, fp.fptr, fp.objsize - 1);
    FirstSector(fp.fs.g);
    var clst;
    if fp.fptr == 0 {
      clst := fp.sclust;
      SameFileGrown(fp);
    } else {
      BoundaryStep(fp.fs.g, fp.fptr);
      ghost var i := ClusterIndex(fp.fs.g, (fp.fptr - 1) / SECTOR_SIZE);
      NextInChain(fp, i);
      clst := GetForFile(fp, fp.clust);
    }
    fp.clust := clst;
  }

  // ----- what the bytes read are -----

  /** The concatenation of sectors. */
  function Join(data: seq<Sector>): (r: seq<Byte>)
    ensures |r| == SECTOR_SIZE * |data|
  {
    seq(SECTOR_SIZE * |data|, i requires 0 <= i < SECTOR_SIZE * |data| => data[i / SECTOR_SIZE][i % SECTOR_SIZE])
  }

  /** n sectors of one cluster read as the bytes of the file at that place. */
  lemma RunBytes(g: Geometry, v: seq<Sector>, cs: seq<nat>, size: nat, k: nat, data: seq<Sector>)
    requires GeometryOk(g, |v|) && ClustersInRange(g, cs) && HasSector(g, cs, k) && SectorInCluster(g, k) + |data| <= g.csize
    requires SectorOf(g, cs, k) + |data| <= |v| && forall j :: 0 <= j < |data| ==> data[j] == v[SectorOf(g, cs, k) + j]
    requires SECTOR_SIZE * (k + |data|) <= size
    ensures Join(data) == Content(g, v, cs, size)[SECTOR_SIZE * k..SECTOR_SIZE * (k + |data|)]
  {
    hide SectorOf;
    hide ClusterIndex;
    hide SectorInCluster;
    forall i | 0 <= i < SECTOR_SIZE * |data|
      ensures Join(data)[i] == ByteAt(g, v, cs, SECTOR_SIZE * k + i)
    {
      var j := i / SECTOR_SIZE;
      DivModIs(SECTOR_SIZE * k + i, SECTOR_SIZE, k + j, i % SECTOR_SIZE);
      RunSector(g, cs, k, j);
    }
  }

  /** Part of one sector reads as the bytes of the file at that place. */
  lemma PartBytes(g: Geometry, v: seq<Sector>, cs: seq<nat>, size: nat, k: nat, o: nat, n: nat)
    requires g.csize > 0 && HasSector(g, cs, k) && SectorOf(g, cs, k) < |v| && o + n <= SECTOR_SIZE
    requires SECTOR_SIZE * k + o + n <= size
    ensures v[SectorOf(g, cs, k)][o..o + n] == Content(g, v, cs, size)[SECTOR_SIZE * k + o..SECTOR_SIZE * k + o + n]
  {
    hide SectorOf;
    hide ClusterIndex;
    var part := v[SectorOf(g, cs, k)][o..o + n];
    forall i | 0 <= i < n
      ensures part[i] == ByteAt(g, v, cs, SECTOR_SIZE * k + o + i)
    {
      DivModIs(SECTOR_SIZE * k + o + i, SECTOR_SIZE, k, o + i);
    }
  }

  // ----- whole sectors -----

  /** Sectors read from the disk, the buffered one replaced where it is dirty. */
  method ReadOverlaid(fp: Fil, sect: nat, n: nat) returns (data: seq<Sector>)
    requires fp.Core() && RunBypasses(fp.fs, sect, n)
    ensures |data| == n && forall j :: 0 <= j < n ==> data[j] == fp.Eff()[sect + j]
  {
    hide FatFs.View;
    hide FatFs.ValidWindow;
    hide ChainOk;
    hide WindowOk;
    FileFacts(fp);
    InRun(fp.sect, sect, n);
    data := ReadRun(fp.fs, sect, n);
    if fp.dirty && Wrap32(fp.sect - sect) < n {
      data := data[fp.sect - sect := fp.buf[..]];
    }
  }

  /** Read n whole sectors directly, past the buffer, and step over them. */
  method ReadDirect(fp: Fil, n: nat) returns (bytes: seq<Byte>)
    requires fp.Core() && Ready(fp) && fp.fptr % SECTOR_SIZE == 0
    requires 1 <= n && SectorInCluster(fp.fs.g, fp.fptr / SECTOR_SIZE) + n <= fp.fs.g.csize
    requires fp.fptr + SECTOR_SIZE * n <= fp.objsize
    modifies fp`fptr
    ensures fp.Valid() && fp.fptr == old(fp.fptr) + SECTOR_SIZE * n && fp.Eff() == old(fp.Eff())
    ensures bytes == fp.Bytes()[old(fp.fptr)..fp.fptr]
  {
    hide FatFs.View;
    hide FatFs.ValidWindow;
    hide ChainOk;
    hide BufferOk;
    hide Join;
    hide Content;
    ghost var g, cs, k := fp.fs.g, fp.chain, fp.fptr / SECTOR_SIZE;
    assert fp.fptr == SECTOR_SIZE * k;
    FileFacts(fp);
    RunInCluster(g, |fp.fs.disk|, cs, k, n, fp.sect, fp.fs.winsect);
    var sect := Clst2Sect(fp.fs.g, fp.clust) + SectorInCluster(fp.fs.g, fp.fptr / SECTOR_SIZE);
    assert sect == SectorOf(g, cs, k);
    var data := ReadOverlaid(fp, sect, n);
    RunBytes(g, fp.Eff(), cs, fp.objsize, k, data);
    PositionAfterRun(g, cs, fp.objsize, k, n, fp.sect);
    bytes := Join(data);
    fp.fptr := fp.fptr + SECTOR_SIZE * n;
  }

  // ----- part of a sector -----

  /** Bring the sector of the position into the buffer, writing a dirty buffer
      back first. */
  method LoadSector(fp: Fil)
    requires fp.Core() && Ready(fp)
    modifies fp.fs`disk, fp.buf, fp`dirty, fp`sect
    ensures fp.Core() && Ready(fp) && fp.Eff() == old(fp.Eff())
    ensures fp.sect == SectorOf(fp.fs.g, fp.chain, fp.fptr / SECTOR_SIZE)
    ensures fp.buf[..] == fp.Eff()[fp.sect]
    ensures Grown(fp.fs.g, old(fp.fs.View()), fp.fs.View(), fp.chain, fp.chain, fp.sclust)
    ensures old(Mirrored(fp.fs.g, fp.fs.disk)) ==> Mirrored(fp.fs.g, fp.fs.disk)
  {
    hide Grown;
    hide FatFs.View;
    hide FatFs.ValidWindow;
    hide Mirrored;
    hide Table;
    hide ChainOk;
    hide Content;
    FileFacts(fp);
    SameFileGrown(fp);
    ghost var g, cs, k := fp.fs.g, fp.chain, fp.fptr / SECTOR_SIZE;
    SectorOfInData(g, |fp.fs.disk|, cs, k);
    var s := Clst2Sect(fp.fs.g, fp.clust) + SectorInCluster(fp.fs.g, fp.fptr / SECTOR_SIZE);
    assert s == SectorOf(g, cs, k);
    if fp.sect != s {
      FlushAndLoad(fp, s, k);
    }
  }

  /** The part of a round that moves bytes. */
  method TransferOut(fp: Fil, btr: nat) returns (bytes: seq<Byte>)
    requires fp.Core() && btr > 0 && fp.fptr + btr <= fp.objsize
    requires if fp.fptr % SECTOR_SIZE == 0 then Ready(fp) else fp.fptr <= fp.objsize && At(fp.fs.g, fp.chain, fp.fptr, fp.clust, fp.sect)
    modifies fp.fs`disk, fp.buf, fp`dirty, fp`sect, fp`fptr
    ensures fp.Valid() && fp.Eff() == old(fp.Eff())
    ensures |bytes| == RoundSize(fp.fs.g, old(fp.fptr), btr) && fp.fptr == old(fp.fptr) + |bytes|
    ensures bytes == fp.Bytes()[old(fp.fptr)..fp.fptr]
    ensures Grown(fp.fs.g, old(fp.fs.View()), fp.fs.View(), fp.chain, fp.chain, fp.sclust)
    ensures old(Mirrored(fp.fs.g, fp.fs.disk)) ==> Mirrored(fp.fs.g, fp.fs.disk)
  {
    hide RoundSize;
    hide Grown;
    hide BufferOk;
    hide WindowOk;
    hide At;
    hide SectorOf;
    hide ClusterIndex;
    hide FatFs.View;
    hide FatFs.ValidWindow;
    hide Mirrored;
    hide Table;
    hide ChainOk;
    hide Content;
    SameFileGrown(fp);
    var rcnt := RoundSize(fp.fs.g, fp.fptr, btr);
    if fp.fptr % SECTOR_SIZE == 0 && btr >= SECTOR_SIZE {
      bytes := ReadDirect(fp, rcnt / SECTOR_SIZE);
    } else {
      if fp.fptr % SECTOR_SIZE == 0 { LoadSector(fp); }
      bytes := CopyOut(fp, rcnt);
    }
  }

  /** memcpy out of the buffer, which holds the position's sector. */
  method CopyOut(fp: Fil, n: nat) returns (bytes: seq<Byte>)
    requires fp.Core() && n >= 1 && fp.fptr % SECTOR_SIZE + n <= SECTOR_SIZE && fp.fptr + n <= fp.objsize
    requires if fp.fptr % SECTOR_SIZE == 0
             then Ready(fp) && fp.sect == SectorOf(fp.fs.g, fp.chain, fp.fptr / SECTOR_SIZE)
             else At(fp.fs.g, fp.chain, fp.fptr, fp.clust, fp.sect)
    modifies fp`fptr
    ensures fp.Valid() && fp.Eff() == old(fp.Eff()) && fp.fptr == old(fp.fptr) + n
    ensures |bytes| == n && bytes == fp.Bytes()[old(fp.fptr)..fp.fptr]
  {
    hide FatFs.View;
    hide FatFs.ValidWindow;
    hide Table;
    hide ChainOk;
    hide Content;
    ghost var g, cs, k := fp.fs.g, fp.chain, fp.fptr / SECTOR_SIZE;
    var o := fp.fptr % SECTOR_SIZE;
    assert fp.fptr == SECTOR_SIZE * k + o;
    FileFacts(fp);
    PartFacts(fp);
    SectorOfInData(g, |fp.fs.disk|, cs, k);
    PartBytes(g, fp.Eff(), cs, fp.objsize, k, o, n);
    PositionAfterPart(g, cs, fp.objsize, k, o, n);
    bytes := fp.buf[o..o + n];
    assert bytes == fp.buf[..][o..o + n];
    fp.fptr := fp.fptr + n;
  }

  // ----- the transfer loop -----

  /** One round of the loop. */
  method ReadRound(fp: Fil, btr: nat) returns (bytes: seq<Byte>)
    requires fp.Valid() && btr > 0 && fp.fptr + btr <= fp.objsize
    modifies fp.fs`disk, fp.fs`wflag, fp.fs`winsect, fp.fs.win, fp.buf, fp`dirty, fp`sect, fp`fptr, fp`clust
    ensures fp.Valid() && fp.Eff() == old(fp.Eff()) && 1 <= |bytes| <= btr && fp.fptr == old(fp.fptr) + |bytes|
    ensures bytes == fp.Bytes()[old(fp.fptr)..fp.fptr]
    ensures Grown(fp.fs.g, old(fp.fs.View()), fp.fs.View(), fp.chain, fp.chain, fp.sclust)
    ensures old(Mirrored(fp.fs.g, fp.fs.disk)) ==> Mirrored(fp.fs.g, fp.fs.disk)
    ensures WindowKept(fp.fs.g, old(fp.fs.winsect), fp.fs.winsect)
  {
    hide FatFs.View;
    hide FatFs.ValidWindow;
    hide Mirrored;
    hide Table;
    hide ChainOk;
    hide BufferOk;
    hide WindowOk;
    hide Content;
    hide Grown;
    if fp.fptr % SECTOR_SIZE == 0 {
      if SectorInCluster(fp.fs.g, fp.fptr / SECTOR_SIZE) == 0 {
        ClusterForRead(fp);
      } else {
        ReadyInsideCluster(fp);
      }
    }
    bytes := TransferOut(fp, btr);
  }

  /** What the loop has read so far, against the file at its start. */
  ghost predicate ReadSoFar(fp: Fil, v: seq<Sector>, eff: seq<Sector>, lo: nat, end: nat, rbuff: seq<Byte>)
    requires GeometryOk(fp.fs.g, |v|)
    reads fp, fp.buf, fp.fs, fp.fs.win
  {
    && fp.Valid() && lo + |rbuff| == fp.fptr <= end <= fp.objsize
    && fp.Eff() == eff
    && rbuff == fp.Bytes()[lo..fp.fptr]
    && Grown(fp.fs.g, v, fp.fs.View(), fp.chain, fp.chain, fp.sclust)
  }

  method ReadMore(fp: Fil, ghost v: seq<Sector>, ghost eff: seq<Sector>, ghost lo: nat, end: nat, got: seq<Byte>) returns (rbuff: seq<Byte>)
    requires GeometryOk(fp.fs.g, |v|) && ReadSoFar(fp, v, eff, lo, end, got) && fp.fptr < end
    modifies fp.fs`disk, fp.fs`wflag, fp.fs`winsect, fp.fs.win, fp.buf, fp`dirty, fp`sect, fp`fptr, fp`clust
    ensures ReadSoFar(fp, v, eff, lo, end, rbuff) && fp.fptr > old(fp.fptr)
    ensures old(Mirrored(fp.fs.g, fp.fs.disk)) ==> Mirrored(fp.fs.g, fp.fs.disk)
    ensures WindowKept(fp.fs.g, old(fp.fs.winsect), fp.fs.winsect)
  {
    hide FatFs.View;
    hide FatFs.Valid;
    hide FatFs.ValidWindow;
    hide Mirrored;
    hide Table;
    hide ChainOk;
    hide BufferOk;
    hide WindowOk;
    hide At;
    hide Content;
    hide Grown;
    ghost var v1, b, p := fp.fs.View(), fp.Bytes(), fp.fptr;
    var bytes := ReadRound(fp, end - fp.fptr);
    assert fp.Bytes() == b;
    GrownTrans(fp.fs.g, v, v1, fp.fs.View(), fp.chain, fp.chain, fp.chain, fp.sclust, fp.sclust);
    rbuff := got + bytes;
    assert b[lo..fp.fptr] == b[lo..p] + b[p..fp.fptr];
  }

  /** f_read: the bytes of the file from the position on, as many as were asked
      for or as the file still has. The file does not change, nor does any other
      file or the table; the buffer may have been written back. */
  method FRead(fp: Fil, btr: nat) returns (res: FResult, rbuff: seq<Byte>)
    requires fp.Valid() && btr < U32
    modifies fp.fs`disk, fp.fs`wflag, fp.fs`winsect, fp.fs.win, fp.buf, fp`dirty, fp`sect, fp`fptr, fp`clust, fp`adrift
    ensures fp.Valid() && fp.Bytes() == old(fp.Bytes())
    ensures old(fp.Owned()) ==> fp.Owned()
    ensures old(fp.err) != FR_OK ==> res == old(fp.err) && rbuff == []
    ensures old(fp.err) == FR_OK && !fp.canRead ==> res == FR_DENIED && rbuff == []
    ensures old(fp.err) == FR_OK && fp.canRead ==>
      && res == FR_OK && |rbuff| == (if btr < fp.objsize - old(fp.fptr) then btr else fp.objsize - old(fp.fptr))
      && rbuff == fp.Bytes()[old(fp.fptr)..old(fp.fptr) + |rbuff|]
    ensures fp.fptr == old(fp.fptr) + |rbuff|
    ensures Grown(fp.fs.g, old(fp.fs.View()), fp.fs.View(), fp.chain, fp.chain, fp.sclust)
    ensures old(Mirrored(fp.fs.g, fp.fs.disk)) ==> Mirrored(fp.fs.g, fp.fs.disk)
    ensures WindowKept(fp.fs.g, old(fp.fs.winsect), fp.fs.winsect)
  {
    hide FatFs.View;
    hide FatFs.ValidWindow;
    hide Mirrored;
    hide Table;
    hide ChainOk;
    hide BufferOk;
    hide WindowOk;
    hide At;
    hide Content;
    hide BufferOwned;
    NoteBuffer(fp);
    SameFileGrown(fp);
    rbuff := [];
    if fp.err != FR_OK { return fp.err, rbuff; }
    if !fp.canRead { return FR_DENIED, rbuff; }
    ghost var v, eff, lo := fp.fs.View(), fp.Eff(), fp.fptr;
    var remain := fp.objsize - fp.fptr;
    var end := fp.fptr + if btr > remain then remain else btr;
    while fp.fptr < end
      invariant fp.adrift == !old(fp.Owned())
      invariant ReadSoFar(fp, v, eff, lo, end, rbuff)
      invariant old(Mirrored(fp.fs.g, fp.fs.disk)) ==> Mirrored(fp.fs.g, fp.fs.disk)
      invariant WindowKept(fp.fs.g, old(fp.fs.winsect), fp.fs.winsect)
    {
      rbuff := ReadMore(fp, v, eff, lo, end, rbuff);
    }
    res := FR_OK;
  }
}

/** f_write (src/fs/fat32/ff.cpp), round by round of its transfer loop. */
module FatWrite {
  import opened Arith
  import opened FatVolume
  import opened FatTable
  import opened FatChains
  import opened FatAlloc
  import opened FatLayout
  import opened FatIo
  import opened FatFile

  /** The head of the loop on a cluster boundary: follow the chain or stretch it.
      The answer is the code's: 0 disk full, 1 internal error. */
  method ClusterForWrite(fp: Fil) returns (clst: nat)
    requires fp.Valid() && fp.fptr % SECTOR_SIZE == 0 && SectorInCluster(fp.fs.g, fp.fptr / SECTOR_SIZE) == 0
    modifies fp.fs`disk, fp.fs`wflag, fp.fs`winsect, fp.fs`freeClst, fp.fs`lastClst, fp.fs`fsiDirty, fp.fs.win
    modifies fp`clust, fp`sclust, fp`chain
    ensures fp.Core() && fp.Bytes() == old(fp.Bytes())
    ensures Grown(fp.fs.g, old(fp.fs.View()), fp.fs.View(), old(fp.chain), fp.chain, fp.sclust)
    ensures old(Mirrored(fp.fs.g, fp.fs.disk)) ==> Mirrored(fp.fs.g, fp.fs.disk)
    ensures WindowKept(fp.fs.g, old(fp.fs.winsect), fp.fs.winsect)
    ensures clst >= 2 ==> Ready(fp) && clst == fp.clust
    ensures clst < 2 ==> fp.Valid() && fp.chain == old(fp.chain) && fp.fs.View() == old(fp.fs.View())
    ensures clst == 0 ==> fp.fs.freeClst == 0 || NothingFree(Table(fp.fs.g, fp.fs.View()))
    ensures clst == 1 ==> HasErrorMark(fp.fs)
  {
    hide FatFs.View;
    hide FatFs.ValidWindow;
    hide Mirrored;
    hide Table;
    hide IsChain;
    hide BufferOk;
    hide WindowOk;
    hide Content;
    hide NothingFree;
    hide HasErrorMark;
    hide SectorInCluster;
    hide SectorOf;
    ghost var g := fp.fs.g;
    FirstSector(g);
    if fp.fptr == 0 {
      clst := fp.sclust;
      if clst == 0 {
        clst := CreateForFile(fp, 0, 0);
      } else {
        SameFileGrown(fp);
      }
    } else {
      BoundaryStep(g, fp.fptr);
      ghost var i := ClusterIndex(g, (fp.fptr - 1) / SECTOR_SIZE);
      ChainInRange(g, fp.fs.View(), fp.chain);
      assert fp.chain[i] in fp.chain;
      clst := CreateForFile(fp, fp.clust, i);
    }
    if clst >= 2 {
      fp.clust := clst;
    }
  }

  // ----- whole sectors -----

  lemma RunStoredAt(g: Geometry, v: seq<Sector>, v': seq<Sector>, cs: seq<nat>, k: nat, data: seq<Sector>, j: nat)
    requires g.csize > 0 && ClustersInRange(g, cs) && HasSector(g, cs, k) && HasSector(g, cs, j)
    requires SectorInCluster(g, k) + |data| <= g.csize && SectorOf(g, cs, j) < |v|
    requires RunStored(v, v', SectorOf(g, cs, k), data)
    ensures v'[SectorOf(g, cs, j)] == if k <= j < k + |data| then data[j - k] else v[SectorOf(g, cs, j)]
  {
    RunTouches(g, cs, k, |data|, j);
  }

  lemma RunReplaces(g: Geometry, v: seq<Sector>, v': seq<Sector>, cs: seq<nat>, k: nat, data: seq<Sector>)
    requires g.csize > 0 && ClustersInRange(g, cs) && HasSector(g, cs, k)
    requires SectorInCluster(g, k) + |data| <= g.csize
    requires RunStored(v, v', SectorOf(g, cs, k), data)
    ensures |v'| == |v| && SectorsReplaced(g, cs, v, v', k, data)
  {
    RunStoredLength(v, v', SectorOf(g, cs, k), data);
    forall j: nat | HasSector(g, cs, j) && SectorOf(g, cs, j) < |v|
      ensures v'[SectorOf(g, cs, j)] == if k <= j < k + |data| then data[j - k] else v[SectorOf(g, cs, j)]
    {
      RunStoredAt(g, v, v', cs, k, data, j);
    }
  }

  /** A direct transfer of n sectors from file sector k on writes their bytes. */
  lemma DirectTransfer(g: Geometry, v: seq<Sector>, v': seq<Sector>, cs: seq<nat>, size: nat, k: nat, data: seq<Byte>, n: nat)
    requires GeometryOk(g, |v|) && ClustersInRange(g, cs) && HasSector(g, cs, k)
    requires 1 <= n && |data| == SECTOR_SIZE * n && SectorInCluster(g, k) + n <= g.csize
    requires SECTOR_SIZE * k <= size && (size > 0 ==> HasByte(g, cs, size - 1))
    requires RunStored(v, v', SectorOf(g, cs, k), Split(data, n))
    ensures BytesWritten(g, v, cs, v', cs, size, SECTOR_SIZE * k, data)
  {
    hide ClusterIndex;
    hide SectorInCluster;
    hide ClusterBase;
    RunSector(g, cs, k, n - 1);
    SplitBytes(data, n);
    RunReplaces(g, v, v', cs, k, Split(data, n));
    SectorsWritten(g, cs, v, v', size, k, Split(data, n), data);
  }

  lemma RunStoredLength(v: seq<Sector>, v': seq<Sector>, s: nat, data: seq<Sector>)
    requires RunStored(v, v', s, data)
    ensures |v'| == |v|
  {
  }

  /** The table and the other files after a run inside the file's clusters. */
  lemma RunKeepsOthers(g: Geometry, v: seq<Sector>, v': seq<Sector>, cs: seq<nat>, sclust: nat, size: nat, s: nat, data: seq<Sector>)
    requires GeometryOk(g, |v|) && ChainOk(g, v, cs, sclust, size) && RunStored(v, v', s, data)
    requires g.database <= s && forall t: nat :: s <= t < s + |data| ==> InClusters(g, cs, t)
    ensures Table(g, v') == Table(g, v) && Grown(g, v, v', cs, cs, sclust)
  {
    DataOnlyTable(g, v, v');
    GrownByData(g, v, v', cs, sclust);
  }

  /** The file after a direct transfer. */
  lemma DirectAfter(g: Geometry, v: seq<Sector>, v': seq<Sector>, cs: seq<nat>, sclust: nat, size: nat, k: nat,
                    data: seq<Byte>, n: nat, sect: nat, buf: Sector, buf': Sector, w: nat)
    requires GeometryOk(g, |v|) && ChainOk(g, v, cs, sclust, size) && WindowOk(g, cs, sect, w) && BufferOk(g, v, cs, sect, false, buf)
    requires HasSector(g, cs, k) && 1 <= n && |data| == SECTOR_SIZE * n && SectorInCluster(g, k) + n <= g.csize
    requires SECTOR_SIZE * k <= size && RunStored(v, v', SectorOf(g, cs, k), Split(data, n))
    requires buf' == if SectorOf(g, cs, k) <= sect < SectorOf(g, cs, k) + n then Split(data, n)[sect - SectorOf(g, cs, k)] else buf
    ensures ChainOk(g, v', cs, sclust, Max(size, SECTOR_SIZE * (k + n))) && BufferOk(g, v', cs, sect, false, buf')
    ensures At(g, cs, SECTOR_SIZE * (k + n), cs[ClusterIndex(g, k)], sect) && Grown(g, v, v', cs, cs, sclust)
    ensures Content(g, v', cs, Max(size, SECTOR_SIZE * (k + n))) == Overwrite(Content(g, v, cs, size), SECTOR_SIZE * k, data)
  {
    hide Table;
    hide IsChain;
    hide ByteAt;
    ChainInRange(g, v, cs);
    RunInCluster(g, |v|, cs, k, n, sect, w);
    RunKeepsOthers(g, v, v', cs, sclust, size, SectorOf(g, cs, k), Split(data, n));
    PositionAfterRun(g, cs, size, k, n, sect);
    DirectTransfer(g, v, v', cs, size, k, data, n);
    WrittenContent(g, v, cs, v', cs, size, SECTOR_SIZE * k, data);
  }

  /** Copy a buffered sector out of the run that has just been written. */
  method RefillBuffer(fp: Fil, data: Sector)
    requires fp.buf.Length == SECTOR_SIZE
    modifies fp.buf, fp`dirty
    ensures fp.buf[..] == data && !fp.dirty
  {
    forall i | 0 <= i < SECTOR_SIZE { fp.buf[i] := data[i]; }
    assert fp.buf[..] == data;
    fp.dirty := false;
  }

  /** The sector of the position, where a run of n sectors may be written. */
  method CurrentSector(fp: Fil, ghost n: nat) returns (sect: nat)
    requires fp.Core() && Ready(fp) && fp.fptr % SECTOR_SIZE == 0
    requires 1 <= n && SectorInCluster(fp.fs.g, fp.fptr / SECTOR_SIZE) + n <= fp.fs.g.csize
    ensures HasSector(fp.fs.g, fp.chain, fp.fptr / SECTOR_SIZE) && sect == SectorOf(fp.fs.g, fp.chain, fp.fptr / SECTOR_SIZE)
    ensures 0 < sect && fp.fs.g.database <= sect && sect + n <= |fp.fs.disk| < U32 && RunBypasses(fp.fs, sect, n)
    ensures fp.sect < U32 && forall s: nat :: sect <= s < sect + n ==> InClusters(fp.fs.g, fp.chain, s)
  {
    hide InClusters, FatFs.View, FatFs.ValidWindow, Table, IsChain, ChainOk, BufferOk, ClusterBase;
    ghost var k := fp.fptr / SECTOR_SIZE;
    FileFacts(fp);
    RunInCluster(fp.fs.g, |fp.fs.disk|, fp.chain, k, n, fp.sect, fp.fs.winsect);
    assert fp.clust in fp.chain;
    sect := Clst2Sect(fp.fs.g, fp.clust) + SectorInCluster(fp.fs.g, fp.fptr / SECTOR_SIZE);
  }

  /** A direct write that covered the buffered sector refills the buffer. */
  method RefillIfCovered(fp: Fil, sect: nat, data: seq<Sector>)
    requires fp.buf.Length == SECTOR_SIZE && fp.sect < U32 && 0 < sect && sect + |data| < U32
    modifies fp.buf, fp`dirty
    ensures fp.buf[..] == if sect <= fp.sect < sect + |data| then data[fp.sect - sect] else old(fp.buf[..])
    ensures fp.dirty == if sect <= fp.sect < sect + |data| then false else old(fp.dirty)
  {
    InRun(fp.sect, sect, |data|);
    if Wrap32(fp.sect - sect) < |data| {
      RefillBuffer(fp, data[fp.sect - sect]);
    }
  }

  /** Write n whole sectors directly, past the buffer, and step over them. */
  method WriteDirect(fp: Fil, data: seq<Byte>, n: nat)
    requires fp.Core() && Ready(fp) && !fp.dirty && fp.fptr % SECTOR_SIZE == 0
    requires 1 <= n && |data| == SECTOR_SIZE * n && SectorInCluster(fp.fs.g, fp.fptr / SECTOR_SIZE) + n <= fp.fs.g.csize
    requires fp.fptr + |data| < U32
    modifies fp.fs`disk, fp.buf, fp`dirty, fp`fptr, fp`objsize
    ensures fp.Valid() && fp.Bytes() == Overwrite(old(fp.Bytes()), old(fp.fptr), data)
    ensures fp.fptr == old(fp.fptr) + |data|
    ensures Grown(fp.fs.g, old(fp.fs.View()), fp.fs.View(), fp.chain, fp.chain, fp.sclust)
    ensures old(Mirrored(fp.fs.g, fp.fs.disk)) ==> Mirrored(fp.fs.g, fp.fs.disk)
  {
    hide InClusters;
    hide FatFs.View;
    hide FatFs.ValidWindow;
    hide Mirrored;
    hide Table;
    hide IsChain;
    hide ChainOk;
    hide BufferOk;
    hide At;
    hide Grown;
    hide Content;
    hide Overwrite;
    hide Split;
    hide RunStored;
    hide SectorOf;
    hide HasSector;
    hide GeometryOk;
    ghost var g, v, cs, k, buf := fp.fs.g, fp.fs.View(), fp.chain, fp.fptr / SECTOR_SIZE, fp.buf[..];
    assert fp.fptr == SECTOR_SIZE * k;
    var sect := CurrentSector(fp, n);
    WriteRun(fp.fs, Split(data, n), sect);
    RefillIfCovered(fp, sect, Split(data, n));
    fp.fptr := fp.fptr + SECTOR_SIZE * n;
    fp.objsize := Max(fp.objsize, fp.fptr);
    DirectAfter(g, v, fp.fs.View(), cs, fp.sclust, old(fp.objsize), k, data, n, fp.sect, buf, fp.buf[..], fp.fs.winsect);
  }

  // ----- part of a sector, through the buffer -----

  /** memcpy into the buffer. */
  method CopyIn(fp: Fil, o: nat, data: seq<Byte>)
    requires fp.buf.Length == SECTOR_SIZE && o + |data| <= SECTOR_SIZE
    modifies fp.buf
    ensures fp.buf[..] == Patch(old(fp.buf[..]), o, data)
  {
    ghost var was := fp.buf[..];
    forall i | 0 <= i < |data| { fp.buf[o + i] := data[i]; }
    assert fp.buf[..] == Patch(was, o, data);
  }

  /** The bytes after part of file sector k. */
  lemma BytesAfterPart(g: Geometry, v: seq<Sector>, eff: seq<Sector>, cs: seq<nat>, size: nat, k: nat, o: nat, data: seq<Byte>, sec: Sector)
    requires GeometryOk(g, |v|) && ClustersInRange(g, cs) && HasSector(g, cs, k) && 1 <= |data| && o + |data| <= SECTOR_SIZE
    requires SECTOR_SIZE * k + o <= size && (size > 0 ==> HasByte(g, cs, size - 1)) && |eff| == |v| && SectorOf(g, cs, k) < |v|
    requires eff == v || eff == v[SectorOf(g, cs, k) := eff[SectorOf(g, cs, k)]]
    requires forall i: nat :: i < SECTOR_SIZE && SECTOR_SIZE * k + i < size ==> sec[i] == eff[SectorOf(g, cs, k)][i]
    ensures Content(g, v[SectorOf(g, cs, k) := Patch(sec, o, data)], cs, Max(size, SECTOR_SIZE * k + o + |data|)) ==
            Overwrite(Content(g, eff, cs, size), SECTOR_SIZE * k + o, data)
  {
    hide SectorOf;
    hide ClusterIndex;
    hide BytesWritten;
    hide Content;
    hide Overwrite;
    hide Patch;
    var eff' := v[SectorOf(g, cs, k) := Patch(sec, o, data)];
    assert eff' == eff[SectorOf(g, cs, k) := Patch(sec, o, data)];
    PatchWritten(g, cs, eff, eff', size, k, o, data, sec);
    WrittenContent(g, eff, cs, eff', cs, size, SECTOR_SIZE * k + o, data);
  }

  /** The file after part of file sector k has been put into the buffer. */
  lemma PartialAfter(g: Geometry, v: seq<Sector>, eff: seq<Sector>, cs: seq<nat>, sclust: nat, size: nat, k: nat, o: nat,
                     data: seq<Byte>, sec: Sector, w: nat, sect0: nat)
    requires GeometryOk(g, |v|) && ChainOk(g, v, cs, sclust, size) && WindowOk(g, cs, sect0, w)
    requires HasSector(g, cs, k) && 1 <= |data| && o + |data| <= SECTOR_SIZE
    requires SECTOR_SIZE * k + o <= size && |eff| == |v| && SectorOf(g, cs, k) < |v|
    requires eff == v || eff == v[SectorOf(g, cs, k) := eff[SectorOf(g, cs, k)]]
    requires forall i: nat :: i < SECTOR_SIZE && SECTOR_SIZE * k + i < size ==> sec[i] == eff[SectorOf(g, cs, k)][i]
    ensures var size', buf' := Max(size, SECTOR_SIZE * k + o + |data|), Patch(sec, o, data);
      && ChainOk(g, v, cs, sclust, size') && BufferOk(g, v, cs, SectorOf(g, cs, k), true, buf')
      && WindowOk(g, cs, SectorOf(g, cs, k), w)
      && At(g, cs, SECTOR_SIZE * k + o + |data|, cs[ClusterIndex(g, k)], SectorOf(g, cs, k))
      && Content(g, v[SectorOf(g, cs, k) := buf'], cs, size') == Overwrite(Content(g, eff, cs, size), SECTOR_SIZE * k + o, data)
  {
    hide Table;
    hide IsChain;
    hide SectorOf;
    hide ClusterIndex;
    hide At;
    hide Patch;
    hide Content;
    hide Overwrite;
    ChainInRange(g, v, cs);
    SectorOfInData(g, |v|, cs, k);
    PositionAfterPart(g, cs, size, k, o, |data|);
    BytesAfterPart(g, v, eff, cs, size, k, o, data, sec);
  }

  /** Make the buffer stand for the sector of the position; on the growing edge
      of the file its old content is not loaded. */
  method EnterSector(fp: Fil)
    requires fp.Core() && Ready(fp) && !fp.dirty && fp.fptr % SECTOR_SIZE == 0
    modifies fp.buf, fp`sect
    ensures fp.sect == SectorOf(fp.fs.g, fp.chain, fp.fptr / SECTOR_SIZE) < |fp.fs.disk|
    ensures fp.fptr < fp.objsize ==> fp.buf[..] == fp.fs.View()[fp.sect]
    ensures fp.fs.Valid() && fp.fs.View() == old(fp.fs.View())
  {
    hide FatFs.View;
    hide FatFs.ValidWindow;
    hide ChainOk;
    FileFacts(fp);
    RunInCluster(fp.fs.g, |fp.fs.disk|, fp.chain, fp.fptr / SECTOR_SIZE, 1, fp.sect, fp.fs.winsect);
    var s := Clst2Sect(fp.fs.g, fp.clust) + SectorInCluster(fp.fs.g, fp.fptr / SECTOR_SIZE);
    if fp.sect != s && fp.fptr < fp.objsize {
      ReadSector(fp.fs, fp.buf, s);
    }
    fp.sect := s;
  }

  /** The rest of a round that is not a direct transfer: bring the sector of the
      position into the buffer, put the bytes there and step over them. */
  method WritePartial(fp: Fil, data: seq<Byte>)
    requires fp.Core() && |data| >= 1 && fp.fptr % SECTOR_SIZE + |data| <= SECTOR_SIZE && fp.fptr + |data| < U32
    requires if fp.fptr % SECTOR_SIZE == 0 then Ready(fp) && !fp.dirty else fp.fptr <= fp.objsize && At(fp.fs.g, fp.chain, fp.fptr, fp.clust, fp.sect)
    modifies fp.buf, fp`dirty, fp`sect, fp`fptr, fp`objsize
    ensures fp.Valid() && fp.Bytes() == Overwrite(old(fp.Bytes()), old(fp.fptr), data)
    ensures fp.fptr == old(fp.fptr) + |data| && fp.fs.View() == old(fp.fs.View())
  {
    hide At;
    hide GeometryOk;
    hide ClusterIndex;
    hide FatFs.View;
    hide FatFs.ValidWindow;
    hide Table;
    hide IsChain;
    hide ChainOk;
    hide Content;
    hide Overwrite;
    hide Patch;
    ghost var g, v, cs, k := fp.fs.g, fp.fs.View(), fp.chain, fp.fptr / SECTOR_SIZE;
    ghost var eff := fp.Eff();
    var o := fp.fptr % SECTOR_SIZE;
    assert fp.fptr == SECTOR_SIZE * k + o;
    PartFacts(fp);
    if o == 0 { EnterSector(fp); }
    ghost var sec := fp.buf[..];
    CopyIn(fp, o, data);
    fp.dirty := true;
    fp.fptr := fp.fptr + |data|;
    fp.objsize := Max(fp.objsize, fp.fptr);
    PartialAfter(g, v, eff, cs, fp.sclust, old(fp.objsize), k, o, data, sec, fp.fs.winsect, old(fp.sect));
  }

  // ----- the transfer loop -----

  /** The part of a round that moves bytes. */
  method Transfer(fp: Fil, data: seq<Byte>) returns (wcnt: nat)
    requires fp.Core() && |data| > 0 && fp.fptr + |data| < U32
    requires if fp.fptr % SECTOR_SIZE == 0 then Ready(fp) else fp.fptr <= fp.objsize && At(fp.fs.g, fp.chain, fp.fptr, fp.clust, fp.sect)
    modifies fp.fs`disk, fp.buf, fp`dirty, fp`sect, fp`fptr, fp`objsize
    ensures fp.Valid() && wcnt == RoundSize(fp.fs.g, old(fp.fptr), |data|)
    ensures fp.Bytes() == Overwrite(old(fp.Bytes()), old(fp.fptr), data[..wcnt]) && fp.fptr == old(fp.fptr) + wcnt
    ensures Grown(fp.fs.g, old(fp.fs.View()), fp.fs.View(), fp.chain, fp.chain, fp.sclust)
    ensures old(Mirrored(fp.fs.g, fp.fs.disk)) ==> Mirrored(fp.fs.g, fp.fs.disk)
  {
    hide FatFs.View;
    hide FatFs.ValidWindow;
    hide Mirrored;
    hide Table;
    hide ChainOk;
    hide BufferOk;
    hide WindowOk;
    hide Content;
    hide Overwrite;
    hide Grown;
    ghost var g, v, cs := fp.fs.g, fp.fs.View(), fp.chain;
    wcnt := RoundSize(fp.fs.g, fp.fptr, |data|);
    SameFileGrown(fp);
    if fp.fptr % SECTOR_SIZE == 0 {
      FlushAndKeep(fp);
      ghost var v1 := fp.fs.View();
      SameFileGrown(fp);
      if |data| >= SECTOR_SIZE {
        WriteDirect(fp, data[..wcnt], wcnt / SECTOR_SIZE);
      } else {
        WritePartial(fp, data[..wcnt]);
      }
      GrownTrans(g, v, v1, fp.fs.View(), cs, cs, cs, fp.sclust, fp.sclust);
    } else {
      WritePartial(fp, data[..wcnt]);
    }
  }

  /** One round of the loop. FR_OK with nothing written means the disk is full. */
  method WriteRound(fp: Fil, data: seq<Byte>) returns (res: FResult, wcnt: nat)
    requires fp.Valid() && |data| > 0 && fp.fptr + |data| < U32
    modifies fp.fs`disk, fp.fs`wflag, fp.fs`winsect, fp.fs`freeClst, fp.fs`lastClst, fp.fs`fsiDirty, fp.fs.win
    modifies fp.buf, fp`dirty, fp`sect, fp`fptr, fp`objsize, fp`clust, fp`sclust, fp`chain, fp`err
    ensures fp.Valid() && wcnt <= |data| && fp.fptr == old(fp.fptr) + wcnt
    ensures fp.Bytes() == Overwrite(old(fp.Bytes()), old(fp.fptr), data[..wcnt])
    ensures Grown(fp.fs.g, old(fp.fs.View()), fp.fs.View(), old(fp.chain), fp.chain, fp.sclust)
    ensures old(Mirrored(fp.fs.g, fp.fs.disk)) ==> Mirrored(fp.fs.g, fp.fs.disk)
    ensures WindowKept(fp.fs.g, old(fp.fs.winsect), fp.fs.winsect)
    ensures if res.FR_OK? then fp.err == old(fp.err) else res.FR_INT_ERR? && fp.err == res && wcnt == 0 && HasErrorMark(fp.fs)
    ensures res.FR_OK? && wcnt == 0 ==> fp.fs.freeClst == 0 || NothingFree(Table(fp.fs.g, fp.fs.View()))
  {
    hide FatFs.View;
    hide FatFs.ValidWindow;
    hide Mirrored;
    hide Table;
    hide ChainOk;
    hide BufferOk;
    hide WindowOk;
    hide Content;
    hide Grown;
    hide NothingFree;
    hide HasErrorMark;
    SameFileGrown(fp);
    ghost var g, v, cs, b := fp.fs.g, fp.fs.View(), fp.chain, fp.Bytes();
    OverwriteNothing(b, fp.fptr);
    if fp.fptr % SECTOR_SIZE == 0 {
      if SectorInCluster(fp.fs.g, fp.fptr / SECTOR_SIZE) == 0 {
        var clst := ClusterForWrite(fp);
        if clst == 0 { return FR_OK, 0; }
        if clst == 1 {
          fp.err := FR_INT_ERR;
          return FR_INT_ERR, 0;
        }
      } else {
        ReadyInsideCluster(fp);
      }
    }
    ghost var v1, cs1, h := fp.fs.View(), fp.chain, fp.sclust;
    wcnt := Transfer(fp, data);
    GrownTrans(g, v, v1, fp.fs.View(), cs, cs1, cs1, h, fp.sclust);
    res := FR_OK;
  }

  lemma OverwriteNothing(b: seq<Byte>, lo: nat)
    requires lo <= |b|
    ensures forall d: seq<Byte> :: Overwrite(b, lo, d[..0]) == b
  {
    forall d: seq<Byte> ensures Overwrite(b, lo, d[..0]) == b {
      assert b[..lo] + b[lo..] == b;
    }
  }

  /** What the loop has achieved after bw bytes: against the file's bytes b and
      position lo, the view v and the chain cs at its start. */
  ghost predicate WrittenSoFar(fp: Fil, v: seq<Sector>, cs: seq<nat>, b: seq<Byte>, lo: nat, data: seq<Byte>, bw: nat)
    requires GeometryOk(fp.fs.g, |v|)
    reads fp, fp.buf, fp.fs, fp.fs.win
  {
    && fp.Valid() && bw <= |data| && lo <= |b| && lo + |data| < U32
    && fp.fptr == lo + bw
    && fp.Bytes() == Overwrite(b, lo, data[..bw])
    && Grown(fp.fs.g, v, fp.fs.View(), cs, fp.chain, fp.sclust)
  }

  method WriteMore(fp: Fil, data: seq<Byte>, done: nat, ghost v: seq<Sector>, ghost cs: seq<nat>, ghost b: seq<Byte>, ghost lo: nat)
    returns (res: FResult, bw: nat)
    requires GeometryOk(fp.fs.g, |v|) && WrittenSoFar(fp, v, cs, b, lo, data, done) && done < |data|
    modifies fp.fs`disk, fp.fs`wflag, fp.fs`winsect, fp.fs`freeClst, fp.fs`lastClst, fp.fs`fsiDirty, fp.fs.win
    modifies fp.buf, fp`dirty, fp`sect, fp`fptr, fp`objsize, fp`clust, fp`sclust, fp`chain, fp`err
    ensures done <= bw && WrittenSoFar(fp, v, cs, b, lo, data, bw)
    ensures old(Mirrored(fp.fs.g, fp.fs.disk)) ==> Mirrored(fp.fs.g, fp.fs.disk)
    ensures WindowKept(fp.fs.g, old(fp.fs.winsect), fp.fs.winsect)
    ensures if res.FR_OK? then fp.err == old(fp.err) else res.FR_INT_ERR? && fp.err == res && HasErrorMark(fp.fs)
    ensures res.FR_OK? && bw == done ==> fp.fs.freeClst == 0 || NothingFree(Table(fp.fs.g, fp.fs.View()))
  {
    hide FatFs.View;
    hide FatFs.Valid;
    hide FatFs.ValidWindow;
    hide Mirrored;
    hide Table;
    hide Grown;
    hide NothingFree;
    hide HasErrorMark;
    hide Fil.Core;
    hide Fil.Bytes;
    hide Fil.Eff;
    hide At;
    hide Overwrite;
    ghost var v1, cs1, h := fp.fs.View(), fp.chain, fp.sclust;
    var n;
    res, n := WriteRound(fp, data[done..]);
    bw := done + n;
    GrownTrans(fp.fs.g, v, v1, fp.fs.View(), cs, cs1, fp.chain, h, fp.sclust);
    AppendWritten(b, lo, data, done, data[done..], n);
  }

  /** The loop: repeat until all data is written or a round cannot go on. */
  method WriteLoop(fp: Fil, data: seq<Byte>) returns (res: FResult, bw: nat)
    requires fp.Valid() && fp.fptr + |data| < U32
    modifies fp.fs`disk, fp.fs`wflag, fp.fs`winsect, fp.fs`freeClst, fp.fs`lastClst, fp.fs`fsiDirty, fp.fs.win
    modifies fp.buf, fp`dirty, fp`sect, fp`fptr, fp`objsize, fp`clust, fp`sclust, fp`chain, fp`err
    ensures WrittenSoFar(fp, old(fp.fs.View()), old(fp.chain), old(fp.Bytes()), old(fp.fptr), data, bw)
    ensures old(Mirrored(fp.fs.g, fp.fs.disk)) ==> Mirrored(fp.fs.g, fp.fs.disk)
    ensures WindowKept(fp.fs.g, old(fp.fs.winsect), fp.fs.winsect)
    ensures if res.FR_OK? then fp.err == old(fp.err) else res.FR_INT_ERR? && fp.err == res && HasErrorMark(fp.fs)
    ensures res.FR_OK? && bw < |data| ==> fp.fs.freeClst == 0 || NothingFree(Table(fp.fs.g, fp.fs.View()))
  {
    hide FatFs.View;
    hide FatFs.ValidWindow;
    hide Mirrored;
    hide Table;
    hide Grown;
    hide NothingFree;
    hide HasErrorMark;
    SameFileGrown(fp);
    OverwriteNothing(fp.Bytes(), fp.fptr);
    assert Overwrite(fp.Bytes(), fp.fptr, data[..0]) == fp.Bytes();
    ghost var v, cs, b, lo := fp.fs.View(), fp.chain, fp.Bytes(), fp.fptr;
    assert WrittenSoFar(fp, v, cs, b, lo, data, 0);
    bw := 0;
    while bw < |data|
      invariant 0 <= bw <= |data| && WrittenSoFar(fp, v, cs, b, lo, data, bw) && fp.fs.ValidWindow()
      invariant fp.err == old(fp.err)
      invariant old(Mirrored(fp.fs.g, fp.fs.disk)) ==> Mirrored(fp.fs.g, fp.fs.disk)
      invariant WindowKept(fp.fs.g, old(fp.fs.winsect), fp.fs.winsect)
    {
      var done := bw;
      res, bw := WriteMore(fp, data, done, v, cs, b, lo);
      if res != FR_OK || bw == done { return; }
    }
    res := FR_OK;
  }

  /** f_write. bw bytes of wbuff were laid over the file from its position on:
      all of them, unless the file would pass 4 GiB - 1, the disk filled up or
      the table holds an error mark. Only free clusters were taken, and neither
      another file's data nor any other entry of the table changed. */
  method FWrite(fp: Fil, wbuff: seq<Byte>) returns (res: FResult, bw: nat)
    requires fp.Valid() && |wbuff| < U32
    modifies fp.fs`disk, fp.fs`wflag, fp.fs`winsect, fp.fs`freeClst, fp.fs`lastClst, fp.fs`fsiDirty, fp.fs.win
    modifies fp.buf, fp`dirty, fp`sect, fp`fptr, fp`objsize, fp`clust, fp`sclust, fp`chain, fp`err, fp`modified, fp`adrift
    ensures fp.Valid() && bw <= |wbuff| && fp.fptr == old(fp.fptr) + bw
    ensures fp.Bytes() == Overwrite(old(fp.Bytes()), old(fp.fptr), wbuff[..bw])
    ensures Grown(fp.fs.g, old(fp.fs.View()), fp.fs.View(), old(fp.chain), fp.chain, fp.sclust)
    ensures old(Mirrored(fp.fs.g, fp.fs.disk)) ==> Mirrored(fp.fs.g, fp.fs.disk)
    ensures WindowKept(fp.fs.g, old(fp.fs.winsect), fp.fs.winsect)
    ensures old(fp.Owned()) ==> fp.Owned()
    ensures old(fp.err) != FR_OK ==> res == old(fp.err) == fp.err && bw == 0
    ensures old(fp.err) == FR_OK && !fp.canWrite ==> res == FR_DENIED && bw == 0 && fp.err == FR_OK
    ensures res.FR_OK? ==> fp.err == FR_OK
    ensures old(fp.err) == FR_OK && fp.canWrite ==>
      && (res.FR_OK? || (res.FR_INT_ERR? && fp.err.FR_INT_ERR? && HasErrorMark(fp.fs)))
      && (res.FR_OK? && bw < |wbuff| ==>
            || (old(fp.fptr) + |wbuff| >= U32 && old(fp.fptr) + bw == U32 - 1)
            || fp.fs.freeClst == 0 || NothingFree(Table(fp.fs.g, fp.fs.View())))
  {
    hide Overwrite;
    hide FatFs.View;
    hide FatFs.ValidWindow;
    hide Mirrored;
    hide Table;
    hide ChainOk;
    hide BufferOk;
    hide WindowOk;
    hide At;
    hide Content;
    hide Grown;
    hide NothingFree;
    hide HasErrorMark;
    hide BufferOwned;
    NoteBuffer(fp);
    SameFileGrown(fp);
    OverwriteNothing(fp.Bytes(), fp.fptr);
    if fp.err != FR_OK { return fp.err, 0; }
    if !fp.canWrite { return FR_DENIED, 0; }
    var btw := |wbuff|;
    FileSizeWraps(fp.fptr, btw);
    if Wrap32(fp.fptr + btw) < fp.fptr { btw := 0xFFFF_FFFF - fp.fptr; }
    res, bw := WriteLoop(fp, wbuff[..btw]);
    assert wbuff[..btw][..bw] == wbuff[..bw];
    if res.FR_OK? { fp.modified := true; }
  }

  /** The wrap-around test tells whether the file would reach 4 GiB. */
  lemma FileSizeWraps(fptr: nat, n: nat)
    requires fptr < U32 && n < U32
    ensures Wrap32(fptr + n) < fptr <==> fptr + n >= U32
  {
    if fptr + n < U32 {
      DivModIs(fptr + n, U32, 0, fptr + n);
    } else {
      DivModIs(fptr + n, U32, 1, fptr + n - U32);
    }
  }

  lemma AppendWritten(b: seq<Byte>, lo: nat, buff: seq<Byte>, bw: nat, rest: seq<Byte>, n: nat)
    requires lo <= |b| && bw + n <= |buff| && n <= |rest| && rest[..n] == buff[bw..bw + n]
    ensures Overwrite(Overwrite(b, lo, buff[..bw]), lo + bw, rest[..n]) == Overwrite(b, lo, buff[..bw + n])
  {
    assert buff[..bw + n] == buff[..bw] + rest[..n];
    OverwriteTwice(b, lo, buff[..bw], rest[..n]);
  }
}

/** Several open files on one volume: each has its own sector buffer, and they
    share the FAT and its window (src/fs/fat32/ff.cpp). An operation on one of
    them is proved to leave all the others as they were. */
module FatShared {
  import opened Arith
  import opened FatVolume
  import opened FatTable
  import opened FatChains
  import opened FatLayout
  import opened FatRuns
  import opened FatFile
  import opened FatWrite
  import opened FatRead
  import opened FatSeek
  import opened FatTruncate
  import opened FatWhole

  // ----- another file, over values -----

  /** A buffer that is laid over its sector, or not. */
  function Overlay(v: seq<Sector>, dirty: bool, sect: nat, buf: Sector): (r: seq<Sector>)
    requires dirty ==> sect < |v|
    ensures |r| == |v|
  {
    if dirty then v[sect := buf] else v
  }

  /** The buffer of a file none of whose sectors changed: it stays in order
      exactly if it is dirty, empty, or its sector still reads as before, and
      that is always so when the sector belongs to the file. */
  lemma BesideBuffer(g: Geometry, v: seq<Sector>, v': seq<Sector>, o: seq<nat>, sect: nat, dirty: bool, buf: Sector)
    requires BufferOk(g, v, o, sect, dirty, buf) && SameOnClusters(g, o, v, v')
    ensures BufferOk(g, v', o, sect, dirty, buf) <==> dirty || sect == 0 || v'[sect] == v[sect]
    ensures BufferOwned(g, o, sect) ==> BufferOk(g, v', o, sect, dirty, buf)
  {
  }

  /** The window, when it has moved, is in the FAT. */
  lemma BesideWindow(g: Geometry, sectors: nat, o: seq<nat>, sect: nat, w: nat, w': nat)
    requires GeometryOk(g, sectors) && ClustersInRange(g, o) && (sect != 0 ==> g.database <= sect)
    requires WindowOk(g, o, sect, w) && WindowKept(g, w, w') && (w' == NO_SECTOR || w' < sectors)
    ensures WindowOk(g, o, sect, w')
  {
    if w' != w {
      if w' == NO_SECTOR { DivModIs(w' - g.fatbase, U32, 0, w' - g.fatbase); }
      FatWindowOk(g, sectors, o, sect, w');
    }
  }

  lemma BesideContent(g: Geometry, v: seq<Sector>, v': seq<Sector>, o: seq<nat>, size: nat, sect: nat, dirty: bool, buf: Sector)
    requires GeometryOk(g, |v|) && ClustersInRange(g, o) && SameOnClusters(g, o, v, v') && (dirty ==> sect < |v|)
    requires size > 0 ==> HasByte(g, o, size - 1)
    ensures Content(g, Overlay(v', dirty, sect, buf), o, size) == Content(g, Overlay(v, dirty, sect, buf), o, size)
  {
    assert SameOnClusters(g, o, Overlay(v, dirty, sect, buf), Overlay(v', dirty, sect, buf));
    SameClustersSameContent(g, o, o, Overlay(v, dirty, sect, buf), Overlay(v', dirty, sect, buf), size);
  }

  /** The chain of another open file and its sectors. */
  lemma BesideFile(g: Geometry, v: seq<Sector>, v': seq<Sector>, chains: map<nat, seq<nat>>, head: nat, cs: seq<nat>, cs': seq<nat>,
                   touched: seq<nat>, o: seq<nat>, sclust: nat, size: nat)
    requires GeometryOk(g, |v|) && WellFormed(Table(g, v), chains)
    requires FileChanged(g, v, v', cs, cs', head, touched) && OnVolume(Table(g, v), chains, head, cs, cs')
    requires ChainOk(g, v, o, sclust, size) && (o != [] ==> sclust in chains && sclust != head)
    ensures ChainOk(g, v', o, sclust, size) && ClustersInRange(g, o) && SameOnClusters(g, o, v, v')
    ensures o != [] ==> sclust in Replaced(chains, head, cs')
  {
    hide Table;
    hide IsChain;
    if o != [] {
      BesideChain(g, v, v', chains, head, cs, cs', touched, sclust);
      ChainsUnique(Table(g, v), chains[sclust], o);
    }
  }

  /** All of it: the invariant of another open file and the bytes it shows. */
  lemma BesideKept(g: Geometry, v: seq<Sector>, v': seq<Sector>, chains: map<nat, seq<nat>>, head: nat, cs: seq<nat>, cs': seq<nat>,
                   touched: seq<nat>, o: seq<nat>, sclust: nat, size: nat, sect: nat, dirty: bool, buf: Sector, w: nat, w': nat)
    requires GeometryOk(g, |v|) && WellFormed(Table(g, v), chains)
    requires FileChanged(g, v, v', cs, cs', head, touched) && OnVolume(Table(g, v), chains, head, cs, cs')
    requires ChainOk(g, v, o, sclust, size) && (o != [] ==> sclust in chains && sclust != head)
    requires BufferOk(g, v, o, sect, dirty, buf) && WindowOk(g, o, sect, w)
    requires WindowKept(g, w, w') && (w' == NO_SECTOR || w' < |v'|)
    ensures |v'| == |v| && ChainOk(g, v', o, sclust, size) && WindowOk(g, o, sect, w')
    ensures sect < |v| && (BufferOk(g, v', o, sect, dirty, buf) <==> dirty || sect == 0 || v'[sect] == v[sect])
    ensures BufferOwned(g, o, sect) ==> BufferOk(g, v', o, sect, dirty, buf)
    ensures Content(g, Overlay(v', dirty, sect, buf), o, size) == Content(g, Overlay(v, dirty, sect, buf), o, size)
    ensures o != [] ==> sclust in Replaced(chains, head, cs')
  {
    hide Table;
    hide IsChain;
    hide WellFormed;
    hide ChainReplaced;
    hide WindowOk;
    hide OnVolume;
    hide Replaced;
    BesideFile(g, v, v', chains, head, cs, cs', touched, o, sclust, size);
    BesideBuffer(g, v, v', o, sect, dirty, buf);
    BesideWindow(g, |v|, o, sect, w, w');
    BesideContent(g, v, v', o, size, sect, dirty, buf);
  }

  // ----- another file, as an object -----

  /** The sector that a clean buffer names reads as it did. */
  twostate predicate SectorKept(f: Fil)
    requires old(f.fs.ValidWindow()) && f.fs.ValidWindow()
    reads f, f.fs, f.fs.win
  {
    f.dirty || f.sect == 0 ||
    (f.sect < |f.fs.View()| && f.sect < |old(f.fs.View())| && f.fs.View()[f.sect] == old(f.fs.View())[f.sect])
  }

  /** An operation on one file of the volume, seen from another open file f that
      it did not touch. f stays in order, with the same bytes and a dirty buffer
      included, exactly unless f's clean buffer names a sector that was written;
      that takes a buffer left behind by f_truncate on a released cluster. */
  twostate lemma FileStays(f: Fil, new chains: map<nat, seq<nat>>, new head: nat, new cs: seq<nat>, new cs': seq<nat>, new touched: seq<nat>)
    requires old(f.Valid()) && unchanged(f) && unchanged(f.buf) && f.fs.Valid()
    requires WellFormed(Table(f.fs.g, old(f.fs.View())), chains)
    requires FileChanged(f.fs.g, old(f.fs.View()), f.fs.View(), cs, cs', head, touched)
    requires OnVolume(Table(f.fs.g, old(f.fs.View())), chains, head, cs, cs')
    requires WindowKept(f.fs.g, old(f.fs.winsect), f.fs.winsect)
    requires f.chain != [] ==> f.sclust in chains && f.sclust != head
    ensures f.Valid() <==> SectorKept(f)
    ensures f.Owned() ==> f.Valid()
    ensures f.Valid() ==> f.Bytes() == old(f.Bytes())
    ensures f.chain != [] ==> f.sclust in Replaced(chains, head, cs')
  {
    hide FatFs.View;
    hide Table;
    hide WellFormed;
    hide FileChanged;
    hide OnVolume;
    hide WindowKept;
    hide WindowOk;
    hide ChainOk;
    hide BufferOk;
    hide At;
    hide Content;
    hide BufferOwned;
    hide Replaced;
    hide GeometryOk;
    ghost var buf := old(f.buf[..]);
    assert f.buf[..] == buf;
    BesideKept(f.fs.g, old(f.fs.View()), f.fs.View(), chains, head, cs, cs', touched, f.chain, f.sclust, f.objsize,
               f.sect, f.dirty, buf, old(f.fs.winsect), f.fs.winsect);
    assert old(f.Eff()) == Overlay(old(f.fs.View()), f.dirty, f.sect, buf);
    assert f.Eff() == Overlay(f.fs.View(), f.dirty, f.sect, buf);
  }

  // ----- all the open files of a volume -----

  /** The table is well formed with the given chains; every open file is in order
      and has a buffer of its own, and its chain is one of the volume's that no
      other open file has. */
  ghost predicate Together(fs: FatFs, files: set<Fil>, chains: map<nat, seq<nat>>)
    reads fs, fs.win, files, set f | f in files :: f.buf
  {
    && fs.Valid() && WellFormed(Table(fs.g, fs.View()), chains)
    && (forall f | f in files :: f.fs == fs && f.Valid() && (f.chain != [] ==> f.sclust in chains))
    && (forall f, h | f in files && h in files && f != h ::
          f.buf != h.buf && (f.chain != [] && h.chain != [] ==> f.sclust != h.sclust))
  }

  /** The open files that are in order. */
  ghost function InOrder(fs: FatFs, files: set<Fil>): (kept: set<Fil>)
    reads fs, fs.win, files, set f | f in files :: f.buf
    ensures kept <= files && forall f | f in files && f.fs == fs :: f in kept <==> f.Valid()
  {
    set f | f in files && f.fs == fs && f.Valid()
  }

  /** Every file of the volume but the one with first cluster head, open or not,
      has on the disk the bytes it had. */
  ghost predicate OthersIntact(g: Geometry, v: seq<Sector>, v': seq<Sector>, chains: map<nat, seq<nat>>, head: nat)
    requires g.csize > 0
  {
    forall k: nat, size: nat :: k in chains && k != head && (size > 0 ==> HasByte(g, chains[k], size - 1)) ==>
      Content(g, v', chains[k], size) == Content(g, v, chains[k], size)
  }

  lemma KeyInRange(fat: Fat, chains: map<nat, seq<nat>>, head: nat)
    requires WellFormed(fat, chains) && head in chains
    ensures InRange(fat, head) && chains[head] != []
  {
    assert IsChain(fat, chains[head]);
  }

  lemma OthersAreIntact(g: Geometry, v: seq<Sector>, v': seq<Sector>, chains: map<nat, seq<nat>>, head: nat, cs: seq<nat>, cs': seq<nat>,
                        touched: seq<nat>)
    requires GeometryOk(g, |v|) && WellFormed(Table(g, v), chains)
    requires FileChanged(g, v, v', cs, cs', head, touched) && OnVolume(Table(g, v), chains, head, cs, cs')
    ensures OthersIntact(g, v, v', chains, head)
    ensures WellFormed(Table(g, v'), Replaced(chains, head, cs')) && (cs == [] ==> head !in chains)
  {
    hide Table;
    hide IsChain;
    hide Content;
    VolumeStaysWellFormed(g, v, v', chains, head, cs, cs', touched);
    if cs == [] && head in chains { KeyInRange(Table(g, v), chains, head); }
    forall k: nat, size: nat | k in chains && k != head && (size > 0 ==> HasByte(g, chains[k], size - 1))
      ensures Content(g, v', chains[k], size) == Content(g, v, chains[k], size)
    {
      OtherFilesKept(g, v, v', chains, head, cs, cs', touched, k, size);
    }
  }

  /** Neither the file object nor its buffer was written to. */
  twostate predicate Untouched(f: Fil)
    reads f, f.buf
  {
    unchanged(f) && unchanged(f.buf)
  }

  /** An operation on one open file, seen from all of them. */
  twostate lemma OthersStay(new fp: Fil, files: set<Fil>, new chains: map<nat, seq<nat>>, new head: nat, new touched: seq<nat>)
    requires fp in files && old(Together(fp.fs, files, chains)) && fp.Valid()
    requires forall f | f in files && f != fp :: Untouched(f)
    requires FileChanged(fp.fs.g, old(fp.fs.View()), fp.fs.View(), old(fp.chain), fp.chain, head, touched)
    requires OnVolume(Table(fp.fs.g, old(fp.fs.View())), chains, head, old(fp.chain), fp.chain)
    requires WindowKept(fp.fs.g, old(fp.fs.winsect), fp.fs.winsect)
    requires (old(fp.chain) != [] ==> old(fp.sclust) == head) && (fp.chain != [] ==> fp.sclust == head)
    ensures forall f | f in files && f != fp :: (f in InOrder(fp.fs, files) <==> SectorKept(f)) && (f.Owned() ==> SectorKept(f))
    ensures forall f | f in InOrder(fp.fs, files) && f != fp :: f.Bytes() == old(f.Bytes())
    ensures fp in InOrder(fp.fs, files) && Together(fp.fs, InOrder(fp.fs, files), Replaced(chains, head, fp.chain))
    ensures OthersIntact(fp.fs.g, old(fp.fs.View()), fp.fs.View(), chains, head)
  {
    hide FatFs.View;
    hide FatFs.ValidWindow;
    hide Table;
    hide WellFormed;
    hide FileChanged;
    hide OnVolume;
    hide WindowKept;
    hide Fil.Valid;
    hide Fil.Bytes;
    hide OthersIntact;
    OthersAreIntact(fp.fs.g, old(fp.fs.View()), fp.fs.View(), chains, head, old(fp.chain), fp.chain, touched);
    forall f | f in files && f != fp
      ensures (f.Valid() <==> SectorKept(f)) && (f.Owned() ==> SectorKept(f))
      ensures f.Valid() ==> f.Bytes() == old(f.Bytes())
      ensures (f.chain != [] ==> f.sclust != head && f.sclust in Replaced(chains, head, fp.chain))
    {
      FileStays(f, chains, head, old(fp.chain), fp.chain, touched);
    }
  }

  /** What the operations that grow a chain say, put together for the volume. */
  lemma GrownOnVolume(g: Geometry, v: seq<Sector>, v': seq<Sector>, chains: map<nat, seq<nat>>, cs: seq<nat>, cs': seq<nat>,
                      sclust: nat, sclust': nat, size: nat, size': nat)
    requires GeometryOk(g, |v|) && GeometryOk(g, |v'|) && ChainOk(g, v, cs, sclust, size) && ChainOk(g, v', cs', sclust', size')
    requires Grown(g, v, v', cs, cs', sclust') && (cs != [] ==> sclust in chains)
    ensures FileChanged(g, v, v', cs, cs', sclust', cs') && OnVolume(Table(g, v), chains, sclust', cs, cs')
    ensures cs != [] ==> sclust == sclust'
  {
    hide Table;
    hide IsChain;
    hide OthersKept;
  }

  /** Putting a file's own chain back into the map changes nothing. */
  lemma SameChains(g: Geometry, v: seq<Sector>, chains: map<nat, seq<nat>>, cs: seq<nat>, sclust: nat, size: nat)
    requires GeometryOk(g, |v|) && WellFormed(Table(g, v), chains) && ChainOk(g, v, cs, sclust, size) && (cs != [] ==> sclust in chains)
    ensures Replaced(chains, sclust, cs) == chains
  {
    hide Table;
    hide IsChain;
    hide HasByte;
    if cs != [] { ChainsUnique(Table(g, v), cs, chains[sclust]); }
    if 0 in chains { KeyInRange(Table(g, v), chains, 0); }
  }

  /** The same for f_truncate. */
  lemma CutOnVolume(g: Geometry, v: seq<Sector>, v': seq<Sector>, chains: map<nat, seq<nat>>, cs: seq<nat>, cs': seq<nat>,
                    sclust: nat, sclust': nat, size: nat, size': nat)
    requires GeometryOk(g, |v|) && GeometryOk(g, |v'|) && ChainOk(g, v, cs, sclust, size) && ChainOk(g, v', cs', sclust', size')
    requires OthersKept(g, v, v', cs) && ChainReplaced(Table(g, v), Table(g, v'), sclust, cs, cs') && (cs != [] ==> sclust in chains)
    ensures FileChanged(g, v, v', cs, cs', sclust, cs) && OnVolume(Table(g, v), chains, sclust, cs, cs')
    ensures cs' != [] ==> sclust' == sclust
  {
    hide Table;
    hide IsChain;
    hide OthersKept;
  }

  /** The error answer of create_chain does not occur on a well-formed table. */
  lemma NoErrorMark(fs: FatFs, chains: map<nat, seq<nat>>)
    requires fs.ValidWindow() && WellFormed(Table(fs.g, fs.View()), chains)
    ensures !HasErrorMark(fs)
  {
    hide FatFs.View;
    hide Table;
    NoErrorMarks(Table(fs.g, fs.View()), chains);
  }

  /** f_write on one of the open files. On a volume in order it writes all the
      data unless the disk is full or the file reaches its greatest size. */
  method WriteTogether(fp: Fil, wbuff: seq<Byte>, ghost files: set<Fil>, ghost chains: map<nat, seq<nat>>)
      returns (res: FResult, bw: nat, ghost chains': map<nat, seq<nat>>)
    requires Together(fp.fs, files, chains) && fp in files && |wbuff| < U32
    modifies fp.fs`disk, fp.fs`wflag, fp.fs`winsect, fp.fs`freeClst, fp.fs`lastClst, fp.fs`fsiDirty, fp.fs.win
    modifies fp.buf, fp`dirty, fp`sect, fp`fptr, fp`objsize, fp`clust, fp`sclust, fp`chain, fp`err, fp`modified, fp`adrift
    ensures fp in InOrder(fp.fs, files) && Together(fp.fs, InOrder(fp.fs, files), chains') && chains' == Replaced(chains, fp.sclust, fp.chain)
    ensures forall f | f in files && f != fp :: (f in InOrder(fp.fs, files) <==> SectorKept(f)) && (f.Owned() ==> SectorKept(f))
    ensures forall f | f in InOrder(fp.fs, files) && f != fp :: f.Bytes() == old(f.Bytes())
    ensures (old(fp.Owned()) || fp.fptr % SECTOR_SIZE != 0) ==> fp.Owned()
    ensures OthersIntact(fp.fs.g, old(fp.fs.View()), fp.fs.View(), chains, fp.sclust)
    ensures Grown(fp.fs.g, old(fp.fs.View()), fp.fs.View(), old(fp.chain), fp.chain, fp.sclust)
    ensures bw <= |wbuff| && fp.fptr == old(fp.fptr) + bw && fp.Bytes() == Overwrite(old(fp.Bytes()), old(fp.fptr), wbuff[..bw])
    ensures res == if old(fp.err) != FR_OK then old(fp.err) else if !fp.canWrite then FR_DENIED else FR_OK
    ensures fp.err == old(fp.err)
    ensures res == FR_OK && bw < |wbuff| ==>
      || (old(fp.fptr) + |wbuff| >= U32 && old(fp.fptr) + bw == U32 - 1)
      || fp.fs.freeClst == 0 || NothingFree(Table(fp.fs.g, fp.fs.View()))
  {
    hide FatFs.View;
    hide FatFs.ValidWindow;
    hide Table;
    hide WellFormed;
    hide Grown;
    hide FileChanged;
    hide OnVolume;
    hide WindowKept;
    hide BufferOk;
    hide WindowOk;
    hide At;
    hide Content;
    hide ChainOk;
    hide HasErrorMark;
    hide NothingFree;
    hide OthersIntact;
    hide Fil.Bytes;
    ghost var v, cs, sclust, size := fp.fs.View(), fp.chain, fp.sclust, fp.objsize;
    res, bw := FWrite(fp, wbuff);
    if fp.fptr % SECTOR_SIZE != 0 { InsideSectorOwned(fp); }
    chains' := Replaced(chains, fp.sclust, fp.chain);
    GrownOnVolume(fp.fs.g, v, fp.fs.View(), chains, cs, fp.chain, sclust, fp.sclust, size, fp.objsize);
    OthersStay(fp, files, chains, fp.sclust, fp.chain);
    NoErrorMark(fp.fs, chains');
  }

  /** f_lseek on one of the open files, which may stretch it. On a volume in
      order it cannot fail. */
  method SeekTogether(fp: Fil, ofs: nat, ghost files: set<Fil>, ghost chains: map<nat, seq<nat>>)
      returns (res: FResult, ghost chains': map<nat, seq<nat>>)
    requires Together(fp.fs, files, chains) && fp in files && ofs < U32
    modifies fp.fs`disk, fp.fs`wflag, fp.fs`winsect, fp.fs`freeClst, fp.fs`lastClst, fp.fs`fsiDirty, fp.fs.win
    modifies fp.buf, fp`dirty, fp`sect, fp`fptr, fp`objsize, fp`clust, fp`sclust, fp`chain, fp`err, fp`modified, fp`adrift
    ensures fp in InOrder(fp.fs, files) && Together(fp.fs, InOrder(fp.fs, files), chains') && chains' == Replaced(chains, fp.sclust, fp.chain)
    ensures forall f | f in files && f != fp :: (f in InOrder(fp.fs, files) <==> SectorKept(f)) && (f.Owned() ==> SectorKept(f))
    ensures forall f | f in InOrder(fp.fs, files) && f != fp :: f.Bytes() == old(f.Bytes())
    ensures (old(fp.Owned()) || fp.fptr % SECTOR_SIZE != 0) ==> fp.Owned()
    ensures OthersIntact(fp.fs.g, old(fp.fs.View()), fp.fs.View(), chains, fp.sclust)
    ensures fp.objsize >= old(fp.objsize) && fp.Bytes()[..old(fp.objsize)] == old(fp.Bytes())
    ensures res == old(fp.err) == fp.err && (res == FR_OK && ofs <= old(fp.objsize) ==> fp.fptr == ofs)
    ensures res == FR_OK ==>
      Reached(fp, if ofs > old(fp.objsize) && !fp.canWrite then old(fp.objsize) else ofs) && fp.objsize == Max(old(fp.objsize), fp.fptr)
  {
    hide FatFs.View;
    hide FatFs.ValidWindow;
    hide Table;
    hide WellFormed;
    hide Grown;
    hide FileChanged;
    hide OnVolume;
    hide WindowKept;
    hide BufferOk;
    hide WindowOk;
    hide At;
    hide Content;
    hide ChainOk;
    hide HasErrorMark;
    hide Reached;
    hide OthersIntact;
    hide Fil.Bytes;
    ghost var v, cs, sclust, size := fp.fs.View(), fp.chain, fp.sclust, fp.objsize;
    res := FLseek(fp, ofs);
    chains' := Replaced(chains, fp.sclust, fp.chain);
    GrownOnVolume(fp.fs.g, v, fp.fs.View(), chains, cs, fp.chain, sclust, fp.sclust, size, fp.objsize);
    OthersAreIntact(fp.fs.g, v, fp.fs.View(), chains, fp.sclust, cs, fp.chain, fp.chain);
    NoErrorMark(fp.fs, chains');
    if fp.fptr % SECTOR_SIZE != 0 { InsideSectorOwned(fp); }
    OthersStay(fp, files, chains, fp.sclust, fp.chain);
  }

  /** f_read on one of the open files: it changes no file at all, though it may
      write back this file's buffer and the window. */
  method ReadTogether(fp: Fil, btr: nat, ghost files: set<Fil>, ghost chains: map<nat, seq<nat>>) returns (res: FResult, rbuff: seq<Byte>)
    requires Together(fp.fs, files, chains) && fp in files && btr < U32
    modifies fp.fs`disk, fp.fs`wflag, fp.fs`winsect, fp.fs.win, fp.buf, fp`dirty, fp`sect, fp`fptr, fp`clust, fp`adrift
    ensures fp.Valid() && fp.fptr == old(fp.fptr) + |rbuff|
    ensures res == if fp.err != FR_OK then fp.err else if !fp.canRead then FR_DENIED else FR_OK
    ensures res == FR_OK ==> |rbuff| == (if btr < fp.objsize - old(fp.fptr) then btr else fp.objsize - old(fp.fptr))
    ensures res == FR_OK ==> rbuff == fp.Bytes()[old(fp.fptr)..fp.fptr]
    ensures fp in InOrder(fp.fs, files) && Together(fp.fs, InOrder(fp.fs, files), chains)
    ensures forall f | f in files && f != fp :: (f in InOrder(fp.fs, files) <==> SectorKept(f)) && (f.Owned() ==> SectorKept(f))
    ensures forall f | f in InOrder(fp.fs, files) :: f.Bytes() == old(f.Bytes())
    ensures (old(fp.Owned()) || fp.fptr % SECTOR_SIZE != 0) ==> fp.Owned()
    ensures OthersIntact(fp.fs.g, old(fp.fs.View()), fp.fs.View(), chains, fp.sclust)
  {
    hide FatFs.View;
    hide FatFs.ValidWindow;
    hide Table;
    hide WellFormed;
    hide Grown;
    hide FileChanged;
    hide OnVolume;
    hide WindowKept;
    hide BufferOk;
    hide WindowOk;
    hide At;
    hide Content;
    hide ChainOk;
    hide HasErrorMark;
    hide OthersIntact;
    hide Fil.Bytes;
    ghost var v := fp.fs.View();
    res, rbuff := FRead(fp, btr);
    if fp.fptr % SECTOR_SIZE != 0 { InsideSectorOwned(fp); }
    GrownOnVolume(fp.fs.g, v, fp.fs.View(), chains, fp.chain, fp.chain, fp.sclust, fp.sclust, fp.objsize, fp.objsize);
    OthersStay(fp, files, chains, fp.sclust, fp.chain);
    SameChains(fp.fs.g, v, chains, fp.chain, fp.sclust, fp.objsize);
  }

  /** f_truncate on one of the open files, the only operation that can leave a
      file's buffer on a cluster that is no longer the file's. */
  method TruncateTogether(fp: Fil, ghost files: set<Fil>, ghost chains: map<nat, seq<nat>>)
      returns (res: FResult, ghost chains': map<nat, seq<nat>>)
    requires Together(fp.fs, files, chains) && fp in files
    modifies fp.fs`disk, fp.fs`wflag, fp.fs`winsect, fp.fs`freeClst, fp.fs`fsiDirty, fp.fs.win
    modifies fp`sclust, fp`objsize, fp`modified, fp`dirty, fp`chain, fp`adrift
    ensures fp.Valid() && res == if fp.err != FR_OK then fp.err else if !fp.canWrite then FR_DENIED else FR_OK
    ensures res == FR_OK ==> fp.objsize == fp.fptr && fp.Bytes() == old(fp.Bytes())[..fp.fptr]
    ensures res != FR_OK ==> fp.Bytes() == old(fp.Bytes())
    ensures fp in InOrder(fp.fs, files) && Together(fp.fs, InOrder(fp.fs, files), chains') && chains' == Replaced(chains, old(fp.sclust), fp.chain)
    ensures forall f | f in files && f != fp :: (f in InOrder(fp.fs, files) <==> SectorKept(f)) && (f.Owned() ==> SectorKept(f))
    ensures forall f | f in InOrder(fp.fs, files) && f != fp :: f.Bytes() == old(f.Bytes())
    ensures ChainReplaced(Table(fp.fs.g, old(fp.fs.View())), Table(fp.fs.g, fp.fs.View()), old(fp.sclust), old(fp.chain), fp.chain)
    ensures res == FR_OK && fp.fptr < old(fp.objsize) ==> |fp.chain| == Kept(fp.fs.g, fp.fptr) && !fp.dirty
    ensures OthersIntact(fp.fs.g, old(fp.fs.View()), fp.fs.View(), chains, old(fp.sclust))
  {
    hide FatFs.View;
    hide FatFs.ValidWindow;
    hide Table;
    hide WellFormed;
    hide Grown;
    hide FileChanged;
    hide OnVolume;
    hide WindowKept;
    hide BufferOk;
    hide WindowOk;
    hide At;
    hide Content;
    hide ChainOk;
    hide HasErrorMark;
    hide BufferOwned;
    hide OthersIntact;
    hide OthersKept;
    hide ChainReplaced;
    hide Fil.Bytes;
    ghost var v, cs, sclust, size := fp.fs.View(), fp.chain, fp.sclust, fp.objsize;
    res := FTruncate(fp);
    chains' := Replaced(chains, sclust, fp.chain);
    CutOnVolume(fp.fs.g, v, fp.fs.View(), chains, cs, fp.chain, sclust, fp.sclust, size, fp.objsize);
    OthersStay(fp, files, chains, sclust, cs);
  }

  /** f_open on a file of the volume that is not open yet. The source does not
      check that (FF_FS_LOCK is 0), its callers have to. */
  method OpenTogether(fs: FatFs, buf: array<Byte>, sclust: nat, objsize: nat, canRead: bool, canWrite: bool,
                      ghost files: set<Fil>, ghost chains: map<nat, seq<nat>>) returns (fp: Fil)
    requires Together(fs, files, chains) && buf.Length == SECTOR_SIZE && buf != fs.win && objsize < U32
    requires (sclust == 0 || sclust in chains) && (objsize > 0 ==> HasByte(fs.g, OldChain(chains, sclust), objsize - 1))
    requires WindowOk(fs.g, OldChain(chains, sclust), 0, fs.winsect)
    requires forall f | f in files :: f.buf != buf && (sclust != 0 ==> f.sclust != sclust)
    ensures fresh(fp) && fp.fs == fs && fp.buf == buf && fp.fptr == 0 && fp.canRead == canRead && fp.canWrite == canWrite
    ensures Together(fs, files + {fp}, chains)
    ensures fp.Valid() && fp.Bytes() == Content(fs.g, fs.View(), OldChain(chains, sclust), objsize)
  {
    hide FatFs.View;
    hide FatFs.ValidWindow;
    hide Table;
    hide IsChain;
    hide Content;
    hide Fil.Bytes;
    hide HasByte;
    hide WindowOk;
    hide BufferOk;
    hide At;
    if 0 in chains { KeyInRange(Table(fs.g, fs.View()), chains, 0); }
    if sclust != 0 { KeyInRange(Table(fs.g, fs.View()), chains, sclust); }
    fp := new Fil(fs, buf, sclust, objsize, canRead, canWrite, OldChain(chains, sclust));
  }

  /** When f_truncate leaves the buffer behind: exactly when it holds a sector of
      the file from behind the clusters that stay. */
  lemma BufferLeftBehind(g: Geometry, sectors: nat, cs: seq<nat>, keep: nat, k: nat)
    requires GeometryOk(g, sectors) && ClustersInRange(g, cs) && HasSector(g, cs, k) && keep <= |cs|
    ensures BufferOwned(g, cs[..keep], SectorOf(g, cs, k)) <==> ClusterIndex(g, k) < keep
  {
    var i, s := ClusterIndex(g, k), SectorOf(g, cs, k);
    SectorOfInData(g, sectors, cs, k);
    assert InCluster(g, cs[i], s) && cs[i] in cs;
    if i < keep { assert cs[..keep][i] == cs[i]; }
    if InClusters(g, cs[..keep], s) {
      var c :| c in cs[..keep] && InCluster(g, c, s);
      var j :| 0 <= j < keep && cs[..keep][j] == c;
      assert cs[j] == c && c in cs;
      ClustersDisjoint(g, c, cs[i], s);
    }
  }

  /** f_lseek and f_read: bytes of the file from wherever they are. */
  method ReadBack(fp: Fil, lo: nat, n: nat, ghost files: set<Fil>, ghost chains: map<nat, seq<nat>>)
      returns (back: seq<Byte>, ghost chains': map<nat, seq<nat>>, ghost kept: set<Fil>)
    requires Together(fp.fs, files, chains) && fp in files && fp.err == FR_OK && fp.canRead && lo + n <= fp.objsize
    modifies fp.fs`disk, fp.fs`wflag, fp.fs`winsect, fp.fs`freeClst, fp.fs`lastClst, fp.fs`fsiDirty, fp.fs.win
    modifies fp.buf, fp`dirty, fp`sect, fp`fptr, fp`objsize, fp`clust, fp`sclust, fp`chain, fp`err, fp`modified, fp`adrift
    ensures Together(fp.fs, kept, chains') && fp in kept && kept <= files && forall f | f in files && f != fp && f.Owned() :: f in kept
    ensures forall f | f in kept :: f.Bytes() == old(f.Bytes())
    ensures fp.objsize == old(fp.objsize) && back == fp.Bytes()[lo..lo + n]
  {
    hide FatFs.View;
    hide FatFs.ValidWindow;
    hide Table;
    hide WellFormed;
    hide BufferOk;
    hide BufferOwned;
    hide WindowOk;
    hide At;
    hide Content;
    hide ChainOk;
    hide OthersIntact;
    hide Reached;
    hide SectorKept;
    hide Fil.Bytes;
    var res;
    ghost var b := fp.Bytes();
    res, chains' := SeekTogether(fp, lo, files, chains);
    kept := InOrder(fp.fs, files);
    assert fp.Bytes() == fp.Bytes()[..|b|];
    res, back := ReadTogether(fp, n, kept, chains');
    kept := InOrder(fp.fs, kept);
  }

  /** Two files written in turn, then the first read back: what is written to the
      second reaches neither the first nor its buffer, dirty or not, nor the
      other way round. */
  method WriteBothReadBack(fp: Fil, fp2: Fil, data: seq<Byte>, data2: seq<Byte>, ghost files: set<Fil>, ghost chains: map<nat, seq<nat>>)
      returns (bw: nat, bw2: nat, back: seq<Byte>, ghost chains': map<nat, seq<nat>>, ghost kept: set<Fil>)
    requires Together(fp.fs, files, chains) && fp in files && fp2 in files && fp != fp2 && |data| < U32 && |data2| < U32
    requires fp.err == FR_OK && fp.canRead && fp.canWrite && fp2.err == FR_OK && fp2.canWrite && fp.Owned() && fp2.Owned()
    modifies fp.fs`disk, fp.fs`wflag, fp.fs`winsect, fp.fs`freeClst, fp.fs`lastClst, fp.fs`fsiDirty, fp.fs.win
    modifies fp.buf, fp`dirty, fp`sect, fp`fptr, fp`objsize, fp`clust, fp`sclust, fp`chain, fp`err, fp`modified, fp`adrift
    modifies fp2.buf, fp2`dirty, fp2`sect, fp2`fptr, fp2`objsize, fp2`clust, fp2`sclust, fp2`chain, fp2`err, fp2`modified, fp2`adrift
    ensures Together(fp.fs, kept, chains') && fp in kept && fp2 in kept
    ensures bw <= |data| && back == data[..bw] && fp.Bytes() == Overwrite(old(fp.Bytes()), old(fp.fptr), data[..bw])
    ensures bw2 <= |data2| && fp2.Bytes() == Overwrite(old(fp2.Bytes()), old(fp2.fptr), data2[..bw2])
  {
    hide Replaced;
    hide FatFs.View;
    hide FatFs.ValidWindow;
    hide Table;
    hide WellFormed;
    hide BufferOk;
    hide BufferOwned;
    hide WindowOk;
    hide At;
    hide Content;
    hide ChainOk;
    hide NothingFree;
    hide OthersIntact;
    hide SectorKept;
    hide Fil.Core;
    hide Fil.Bytes;
    var lo, res := fp.fptr, FR_OK;
    res, bw, chains' := WriteTogether(fp, data, files, chains);
    kept := InOrder(fp.fs, files);
    res, bw2, chains' := WriteTogether(fp2, data2, kept, chains');
    kept := InOrder(fp.fs, kept);
    back, chains', kept := ReadBack(fp, lo, bw, kept, chains');
  }

  // ----- the buffer that f_truncate leaves behind -----

  /** On a sector from behind the cut the buffer is in order only until something
      else is written there. */
  lemma StaleBuffer(g: Geometry, v: seq<Sector>, cs: seq<nat>, keep: nat, k: nat, data: Sector)
    requires GeometryOk(g, |v|) && ClustersInRange(g, cs) && HasSector(g, cs, k) && keep <= ClusterIndex(g, k)
    ensures SectorOf(g, cs, k) < |v|
    ensures var s := SectorOf(g, cs, k);
      && BufferOk(g, v, cs[..keep], s, false, v[s])
      && (BufferOk(g, v[s := data], cs[..keep], s, false, v[s]) <==> data == v[s])
  {
    SectorOfInData(g, |v|, cs, k);
  }

  /** With every other cluster in use, the one that a truncation released is the
      one the next allocation gets. */
  lemma OnlyFreeTaken(fat: Fat, fat1: Fat, fat2: Fat, c: nat, head: nat, cs: seq<nat>)
    requires NothingFree(fat) && ChainReplaced(fat, fat1, c, [c], []) && ChainReplaced(fat1, fat2, head, [], cs)
    ensures cs == [] || cs == [c]
  {
    forall i | 0 <= i < |cs| ensures cs[i] == c {
      assert cs[i] in cs;
    }
  }

  /** What the first sector of a one-cluster file of that size holds. */
  lemma FirstSectorHolds(g: Geometry, v: seq<Sector>, c: nat, data: Sector)
    requires GeometryOk(g, |v|) && 2 <= c < g.nFatent && Content(g, v, [c], SECTOR_SIZE) == data
    ensures ClusterBase(g, c) < |v| && v[ClusterBase(g, c)] == data
  {
    hide ClusterBase;
    FirstSector(g);
    assert SectorOf(g, [c], 0) == ClusterBase(g, c);
    SectorOfInData(g, |v|, [c], 0);
    forall p | 0 <= p < SECTOR_SIZE ensures v[ClusterBase(g, c)][p] == data[p] {
      assert data[p] == ByteAt(g, v, [c], p);
    }
  }

  /** A file whose clean buffer names the sector where another file has put other
      contents is not in order. */
  lemma NowStale(fp: Fil, fp2: Fil, c: nat, data: Sector)
    requires fp.fs == fp2.fs && fp2.Core() && !fp2.dirty && fp2.chain == [c] && fp2.Bytes() == data
    requires !fp.dirty && fp.sect == ClusterBase(fp.fs.g, c) && fp.buf[..] != data
    ensures !fp.Valid()
  {
    hide FatFs.View;
    hide Table;
    hide IsChain;
    hide Content;
    FileFacts(fp2);
    assert c in fp2.chain;
    FirstSectorHolds(fp.fs.g, fp.fs.View(), c, data);
  }

  /** How one-cluster files start. */
  lemma OneClusterFile(fp: Fil)
    requires fp.Core() && |fp.chain| == 1
    ensures fp.chain == [fp.sclust]
  {
    hide Table;
    hide IsChain;
  }

  lemma EmptyFile(fp: Fil)
    requires fp.Core()
    ensures fp.chain == [] ==> fp.objsize == 0 && fp.Bytes() == []
  {
    hide Table;
    hide IsChain;
  }

  /** Another file's first sector on a disk with the one free cluster c, all the
      way to the disk. */
  method WriteOnlyFree(fp: Fil, data: Sector, ghost fat: Fat, ghost c: nat, ghost files: set<Fil>, ghost chains: map<nat, seq<nat>>)
      returns (bw: nat, ghost chains': map<nat, seq<nat>>)
    requires Together(fp.fs, files, chains) && fp in files && fp.err == FR_OK && fp.canWrite && fp.chain == []
    requires NothingFree(fat) && ChainReplaced(fat, Table(fp.fs.g, fp.fs.View()), c, [c], [])
    modifies fp.fs`disk, fp.fs`wflag, fp.fs`winsect, fp.fs`freeClst, fp.fs`lastClst, fp.fs`fsiDirty, fp.fs.win
    modifies fp.buf, fp`dirty, fp`sect, fp`fptr, fp`objsize, fp`clust, fp`sclust, fp`chain, fp`err, fp`modified, fp`adrift
    ensures fp.Core() && !fp.dirty && bw <= SECTOR_SIZE && fp.Bytes() == data[..bw]
    ensures bw == SECTOR_SIZE ==> fp.chain == [c]
  {
    hide FatFs.View;
    hide FatFs.ValidWindow;
    hide Table;
    hide IsChain;
    hide WellFormed;
    hide BufferOk;
    hide BufferOwned;
    hide WindowOk;
    hide At;
    hide Content;
    hide ChainOk;
    hide NothingFree;
    hide OthersIntact;
    hide OthersKept;
    hide SectorKept;
    hide ChainReplaced;
    hide Fil.Core;
    hide Fil.Bytes;
    hide GeometryOk;
    EmptyFile(fp);
    var res;
    ghost var fat1 := Table(fp.fs.g, fp.fs.View());
    res, bw, chains' := WriteTogether(fp, data, files, chains);
    OnlyFreeTaken(fat, fat1, Table(fp.fs.g, fp.fs.View()), c, fp.sclust, fp.chain);
    assert fp.Bytes() == data[..bw];
    EmptyFile(fp);
    FlushAndKeep(fp);
  }

  /** The input on which a file is disturbed by another: fp has one cluster, its
      first sector in a clean buffer, and is truncated to nothing on a disk that is
      full otherwise. The next file to write a sector, with other contents, gets
      that cluster, and fp's buffer no longer is what it names. */
  method TruncateThenOverwrite(fp: Fil, fp2: Fil, data: Sector, ghost files: set<Fil>, ghost chains: map<nat, seq<nat>>)
      returns (bw: nat, ghost chains': map<nat, seq<nat>>)
    requires Together(fp.fs, files, chains) && fp in files && fp2 in files && fp != fp2
    requires fp.err == FR_OK && fp.canWrite && fp2.err == FR_OK && fp2.canWrite && fp2.chain == [] && fp2.Owned()
    requires |fp.chain| == 1 && fp.fptr == 0 < fp.objsize && !fp.dirty && fp.sect == ClusterBase(fp.fs.g, fp.chain[0])
    requires NothingFree(Table(fp.fs.g, fp.fs.View())) && data != fp.buf[..]
    modifies fp.fs`disk, fp.fs`wflag, fp.fs`winsect, fp.fs`freeClst, fp.fs`lastClst, fp.fs`fsiDirty, fp.fs.win
    modifies fp`sclust, fp`objsize, fp`modified, fp`dirty, fp`chain, fp`adrift
    modifies fp2.buf, fp2`dirty, fp2`sect, fp2`fptr, fp2`objsize, fp2`clust, fp2`sclust, fp2`chain, fp2`err, fp2`modified, fp2`adrift
    ensures fp2.Core() && bw <= SECTOR_SIZE && fp2.Bytes() == data[..bw]
    ensures bw == SECTOR_SIZE ==> !fp.Valid()
  {
    hide FatFs.View;
    hide FatFs.ValidWindow;
    hide Table;
    hide IsChain;
    hide WellFormed;
    hide BufferOk;
    hide BufferOwned;
    hide WindowOk;
    hide At;
    hide Content;
    hide ChainOk;
    hide NothingFree;
    hide OthersIntact;
    hide OthersKept;
    hide SectorKept;
    hide ChainReplaced;
    hide Fil.Core;
    hide Fil.Bytes;
    hide GeometryOk;
    OneClusterFile(fp);
    ghost var c, fat := fp.sclust, Table(fp.fs.g, fp.fs.View());
    var res;
    res, chains' := TruncateTogether(fp, files, chains);
    bw, chains' := WriteOnlyFree(fp2, data, fat, c, InOrder(fp.fs, files), chains');
    if bw == SECTOR_SIZE {
      assert data[..bw] == data;
      NowStale(fp, fp2, c, data);
    }
  }
}

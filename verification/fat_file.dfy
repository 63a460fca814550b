/** An open file: its position, its private sector buffer and its cluster chain
    (src/fs/fat32/ff.cpp FIL). The invariant and the steps that the public
    operations of fat_read.dfy, fat_write.dfy, fat_seek.dfy and fat_truncate.dfy
    are made of. */
module FatFile {
  import opened Arith
  import opened FatVolume
  import opened FatTable
  import opened FatChains
  import opened FatAlloc
  import opened FatLayout
  import opened FatIo

  // ----- the invariant, over values -----

  /** cs is the file's chain in the table and covers its size bytes. */
  ghost predicate ChainOk(g: Geometry, v: seq<Sector>, cs: seq<nat>, sclust: nat, size: nat)
    requires GeometryOk(g, |v|)
  {
    && (cs == [] <==> sclust == 0)
    && (cs != [] ==> cs[0] == sclust && IsChain(Table(g, v), cs))
    && (size > 0 ==> HasByte(g, cs, size - 1))
  }

  /** A dirty buffer stands for a sector of the file; a clean one shows the
      sector it names. Sector 0 names nothing. */
  ghost predicate BufferOk(g: Geometry, v: seq<Sector>, cs: seq<nat>, sect: nat, dirty: bool, buf: seq<Byte>) {
    && |buf| == SECTOR_SIZE
    && (sect != 0 ==> g.database <= sect < |v|)
    && (dirty ==> sect != 0 && InClusters(g, cs, sect))
    && (!dirty && sect != 0 ==> buf == v[sect])
  }

  /** The buffered sector is one of the file's own. */
  ghost predicate BufferOwned(g: Geometry, cs: seq<nat>, sect: nat) {
    sect != 0 ==> InClusters(g, cs, sect)
  }

  /** The directory and FAT window shows neither the file nor the buffered sector. */
  ghost predicate WindowOk(g: Geometry, cs: seq<nat>, sect: nat, winsect: nat) {
    !InClusters(g, cs, winsect) && (sect == 0 || winsect != sect)
  }

  /** The window was left alone or moved into the FAT. */
  predicate WindowKept(g: Geometry, w: nat, w': nat) {
    w' == w || InFirstFat(g, w')
  }

  /** clust is the cluster of the byte before the position, and within a sector
      the buffer holds the sector of the position. */
  ghost predicate At(g: Geometry, cs: seq<nat>, fptr: nat, clust: nat, sect: nat)
    requires g.csize > 0
  {
    && (fptr > 0 ==> HasByte(g, cs, fptr - 1) && clust == cs[ClusterIndex(g, (fptr - 1) / SECTOR_SIZE)])
    && (fptr % SECTOR_SIZE != 0 ==> HasByte(g, cs, fptr) && sect == SectorOf(g, cs, fptr / SECTOR_SIZE))
  }

  lemma ChainInRange(g: Geometry, v: seq<Sector>, cs: seq<nat>)
    requires GeometryOk(g, |v|) && (cs != [] ==> IsChain(Table(g, v), cs))
    ensures ClustersInRange(g, cs)
  {
    hide Table;
    forall c | c in cs ensures 2 <= c < g.nFatent {
      var i :| 0 <= i < |cs| && cs[i] == c;
      assert InRange(Table(g, v), cs[i]);
    }
  }

  /** The window in the FAT is away from every file. */
  lemma FatWindowOk(g: Geometry, sectors: nat, cs: seq<nat>, sect: nat, winsect: nat)
    requires GeometryOk(g, sectors) && ClustersInRange(g, cs) && winsect < sectors && InFirstFat(g, winsect)
    requires sect != 0 ==> g.database <= sect
    ensures WindowOk(g, cs, sect, winsect)
  {
    FirstFatIsInterval(g, sectors, winsect);
    forall c | c in cs ensures !InCluster(g, c, winsect) {
      if InCluster(g, c, winsect) { ClusterInData(g, sectors, c, winsect); }
    }
  }

  /** Changes inside the FAT area do not reach the file's data or its buffer. */
  lemma DataOutsideFat(g: Geometry, v: seq<Sector>, v': seq<Sector>, cs: seq<nat>)
    requires GeometryOk(g, |v|) && ClustersInRange(g, cs) && SameOutsideFat(g, v, v')
    ensures SameOnClusters(g, cs, v, v')
  {
    forall s: nat | s < |v| && InClusters(g, cs, s) ensures v'[s] == v[s] {
      var c :| c in cs && InCluster(g, c, s);
      ClusterInData(g, |v|, c, s);
    }
  }

  lemma BufferOutsideFat(g: Geometry, v: seq<Sector>, v': seq<Sector>, cs: seq<nat>, cs': seq<nat>, sect: nat, dirty: bool, buf: seq<Byte>)
    requires GeometryOk(g, |v|) && SameOutsideFat(g, v, v') && cs <= cs'
    requires BufferOk(g, v, cs, sect, dirty, buf)
    ensures BufferOk(g, v', cs', sect, dirty, buf)
  {
    if sect != 0 { DataSectorOutsideFat(g, |v|, sect); }
    if dirty {
      var c :| c in cs && InCluster(g, c, sect);
      assert c in cs';
    }
  }

  // ----- create_chain on a file's chain -----

  /** What create_chain does to the chain it was given a cluster of (or to no
      chain at all, for clst 0). */
  lemma CreateOnChain(s: Alloc, clst: nat, eoc: nat, ch: Choice, s': Alloc, cs: seq<nat>, i: nat)
    requires CreateStep(s, clst, eoc, ch, s') && eoc >= |s.fat|
    requires if clst == 0 then cs == [] else IsChain(s.fat, cs) && i < |cs| && cs[i] == clst
    ensures ch.Answer? && ch.code >= 2 ==> clst != 0 && i + 1 < |cs| && ch.code == cs[i + 1]
    ensures ch.Take? ==>
      && (clst != 0 ==> i + 1 == |cs|)
      && IsChain(s'.fat, cs + [ch.cluster])
      && ChainReplaced(s.fat, s'.fat, (cs + [ch.cluster])[0], cs, cs + [ch.cluster])
  {
    if clst != 0 && i + 1 < |cs| {
      assert InRange(s.fat, cs[i + 1]) && s.fat[cs[i]] == cs[i + 1];
    }
    if ch.Take? {
      TakeFacts(s.fat, s.free, s.last, clst, ch.cluster);
      if clst != 0 {
        StretchReplaces(s.fat, cs, ch.cluster, eoc);
      }
    }
  }

  // ----- the file object -----

  class Fil {
    const fs: FatFs
    const buf: array<Byte>
    const canRead: bool
    const canWrite: bool
    var fptr: nat
    var objsize: nat
    var sclust: nat
    var clust: nat
    var sect: nat
    var dirty: bool
    var modified: bool
    var err: FResult
    ghost var chain: seq<nat>
    ghost var adrift: bool  // the buffered sector need not be one of the file's

    /** f_open without FA_SEEKEND: position 0, no buffered sector. */
    constructor (fs: FatFs, buf: array<Byte>, sclust: nat, objsize: nat, canRead: bool, canWrite: bool, ghost chain: seq<nat>)
      requires fs.Valid() && buf.Length == SECTOR_SIZE && buf != fs.win && objsize < U32
      requires ChainOk(fs.g, fs.View(), chain, sclust, objsize) && WindowOk(fs.g, chain, 0, fs.winsect)
      ensures Valid() && fptr == 0 && this.fs == fs && this.buf == buf && this.canRead == canRead && this.canWrite == canWrite
      ensures this.sclust == sclust && this.chain == chain && this.objsize == objsize && !adrift
      ensures Bytes() == Content(fs.g, fs.View(), chain, objsize)
    {
      this.fs := fs;
      this.buf := buf;
      this.canRead := canRead;
      this.canWrite := canWrite;
      fptr := 0;
      this.objsize := objsize;
      this.sclust := sclust;
      clust := 0;
      sect := 0;
      dirty := false;
      modified := false;
      err := FR_OK;
      this.chain := chain;
      adrift := false;
    }

    /** The buffered sector is one of the file's own. A truncation can release the
        cluster it is in. */
    ghost predicate Owned()
      reads `sect, `chain
    {
      BufferOwned(fs.g, chain, sect)
    }

    /** Everything but the place of the position and its link to clust, sect. */
    ghost predicate Core()
      reads this, buf, fs, fs.win
      ensures Core() ==> fs.Valid() && GeometryOk(fs.g, |fs.disk|) && buf.Length == SECTOR_SIZE && buf != fs.win
      ensures Core() ==> objsize < U32 && (dirty ==> sect < |fs.disk|)
    {
      && fs.Valid() && buf.Length == SECTOR_SIZE && buf != fs.win
      && objsize < U32
      && ChainOk(fs.g, fs.View(), chain, sclust, objsize)
      && BufferOk(fs.g, fs.View(), chain, sect, dirty, buf[..])
      && WindowOk(fs.g, chain, sect, fs.winsect)
      && (adrift || Owned())
    }

    ghost predicate Valid()
      reads this, buf, fs, fs.win
      ensures Valid() ==> Core() && fptr <= objsize
    {
      Core() && fptr <= objsize && At(fs.g, chain, fptr, clust, sect)
    }

    /** The volume as the file sees it: the view overlaid by the dirty buffer. */
    ghost function Eff(): (v: seq<Sector>)
      requires fs.ValidWindow() && buf.Length == SECTOR_SIZE && (dirty ==> sect < |fs.disk|)
      reads `sect, `dirty, buf, fs`disk, fs`winsect, fs`wflag, fs.win
      ensures |v| == |fs.disk|
    {
      if dirty then fs.View()[sect := buf[..]] else fs.View()
    }

    /** The file as a sequence of bytes. */
    ghost function Bytes(): (c: seq<Byte>)
      requires Core()
      reads this, buf, fs, fs.win
      ensures |c| == objsize
    {
      Content(fs.g, Eff(), chain, objsize)
    }
  }

  /** Inside a sector the buffer holds the sector of the position. */
  lemma InsideSectorOwned(fp: Fil)
    requires fp.Valid() && fp.fptr % SECTOR_SIZE != 0
    ensures fp.Owned()
  {
    hide Table;
    hide IsChain;
    FileFacts(fp);
    SectorOfInData(fp.fs.g, |fp.fs.disk|, fp.chain, fp.fptr / SECTOR_SIZE);
  }

  /** At the start of an operation: from here on a buffer that is the file's own
      has to stay so. */
  ghost method NoteBuffer(fp: Fil)
    requires fp.Valid()
    modifies fp`adrift
    ensures fp.Valid() && fp.adrift == !fp.Owned()
    ensures fp.Bytes() == old(fp.Bytes()) && fp.Eff() == old(fp.Eff())
  {
    hide FatFs.View;
    hide Table;
    hide ChainOk;
    hide BufferOk;
    hide WindowOk;
    hide BufferOwned;
    hide Content;
    hide At;
    fp.adrift := !fp.Owned();
  }

  // ----- steps -----

  /** Only data sectors changed. */
  ghost predicate DataOnly(g: Geometry, v: seq<Sector>, v': seq<Sector>) {
    |v'| == |v| && forall s: nat :: s < |v| && s < g.database ==> v'[s] == v[s]
  }

  lemma DataOnlyTable(g: Geometry, v: seq<Sector>, v': seq<Sector>)
    requires GeometryOk(g, |v|) && DataOnly(g, v, v')
    ensures Table(g, v') == Table(g, v)
  {
    forall c | 0 <= c < g.nFatent ensures Entry(g, v', c) == Entry(g, v, c) {
      EntryInside(g, |v|, c);
    }
  }

  /** Write the dirty buffer back to the disk. The file does not change. */
  method FlushBuffer(fp: Fil)
    requires fp.Core()
    modifies fp`dirty, fp.fs`disk
    ensures fp.Core() && !fp.dirty
    ensures fp.Eff() == old(fp.Eff()) == fp.fs.View()
    ensures DataOnly(fp.fs.g, old(fp.fs.View()), fp.fs.View())
    ensures forall s: nat :: s < |fp.fs.View()| && !InClusters(fp.fs.g, fp.chain, s) ==> fp.fs.View()[s] == old(fp.fs.View())[s]
    ensures old(Mirrored(fp.fs.g, fp.fs.disk)) ==> Mirrored(fp.fs.g, fp.fs.disk)
  {
    hide FatFs.View;
    hide FatFs.ValidWindow;
    hide Mirrored;
    hide IsChain;
    hide Table;
    if fp.dirty {
      ghost var v := fp.fs.View();
      WriteSector(fp.fs, fp.buf[..], fp.sect);
      fp.dirty := false;
      assert DataOnly(fp.fs.g, v, fp.fs.View());
      DataOnlyTable(fp.fs.g, v, fp.fs.View());
    }
  }

  // ----- what a file operation leaves alone -----

  /** Outside the FAT only sectors of the clusters cs changed. */
  ghost predicate OthersKept(g: Geometry, v: seq<Sector>, v': seq<Sector>, cs: seq<nat>) {
    |v'| == |v| && forall s: nat :: s < |v| && !InFatArea(g, s) && !InClusters(g, cs, s) ==> v'[s] == v[s]
  }

  /** A file's chain grew from cs to cs': it took only free clusters, no other
      entry of the table changed, and no other file's data. */
  ghost predicate Grown(g: Geometry, v: seq<Sector>, v': seq<Sector>, cs: seq<nat>, cs': seq<nat>, head: nat)
    requires GeometryOk(g, |v|)
  {
    && OthersKept(g, v, v', cs')
    && cs <= cs'
    && ChainReplaced(Table(g, v), Table(g, v'), head, cs, cs')
  }

  lemma MoreClusters(g: Geometry, cs: seq<nat>, cs': seq<nat>, s: nat)
    requires cs <= cs' && InClusters(g, cs, s)
    ensures InClusters(g, cs', s)
  {
    var c :| c in cs && InCluster(g, c, s);
    assert c in cs';
  }

  lemma OthersKeptTrans(g: Geometry, v: seq<Sector>, v1: seq<Sector>, v2: seq<Sector>, cs: seq<nat>, cs': seq<nat>)
    requires OthersKept(g, v, v1, cs) && OthersKept(g, v1, v2, cs') && cs <= cs'
    ensures OthersKept(g, v, v2, cs')
  {
    forall s: nat | s < |v| && !InFatArea(g, s) && !InClusters(g, cs', s) ensures v2[s] == v[s] {
      if InClusters(g, cs, s) { MoreClusters(g, cs, cs', s); }
    }
  }

  lemma ReplacedTrans(fat: Fat, fat1: Fat, fat2: Fat, h: nat, h': nat, cs: seq<nat>, cs1: seq<nat>, cs2: seq<nat>)
    requires ChainReplaced(fat, fat1, h, cs, cs1) && ChainReplaced(fat1, fat2, h', cs1, cs2)
    requires cs <= cs1 <= cs2
    ensures ChainReplaced(fat, fat2, h', cs, cs2)
  {
    hide IsChain;
    assert forall x :: x in cs ==> x in cs1;
    assert forall x :: x in cs1 ==> x in cs2;
  }

  lemma GrownTrans(g: Geometry, v: seq<Sector>, v1: seq<Sector>, v2: seq<Sector>, cs: seq<nat>, cs1: seq<nat>, cs2: seq<nat>, h: nat, h': nat)
    requires GeometryOk(g, |v|) && Grown(g, v, v1, cs, cs1, h) && Grown(g, v1, v2, cs1, cs2, h')
    ensures Grown(g, v, v2, cs, cs2, h')
  {
    hide Table;
    OthersKeptTrans(g, v, v1, v2, cs1, cs2);
    ReplacedTrans(Table(g, v), Table(g, v1), Table(g, v2), h, h', cs, cs1, cs2);
  }

  /** Nothing happened to the table and only the file's own sectors changed. */
  lemma GrownByData(g: Geometry, v: seq<Sector>, v': seq<Sector>, cs: seq<nat>, head: nat)
    requires GeometryOk(g, |v|) && |v'| == |v| && Table(g, v') == Table(g, v)
    requires forall s: nat :: s < |v| && !InClusters(g, cs, s) ==> v'[s] == v[s]
    requires cs != [] ==> cs[0] == head && IsChain(Table(g, v), cs)
    ensures Grown(g, v, v', cs, cs, head)
  {
    hide Table;
    hide IsChain;
  }

  // ----- create_chain for a file -----

  /** Lay the buffer over two volumes that agree outside the FAT. */
  lemma OverlayOutsideFat(g: Geometry, v: seq<Sector>, v': seq<Sector>, dirty: bool, sect: nat, buf: Sector)
    requires SameOutsideFat(g, v, v') && (dirty ==> sect < |v|)
    ensures SameOutsideFat(g, if dirty then v[sect := buf] else v, if dirty then v'[sect := buf] else v')
  {
  }

  ghost predicate HasErrorMark(fs: FatFs)
    requires fs.ValidWindow()
    reads fs`disk, fs`winsect, fs`wflag, fs.win
  {
    exists c: nat :: 2 <= c < fs.g.nFatent && Table(fs.g, fs.View())[c] == 1
  }

  /** The two ways create_chain can leave a file's chain. */
  ghost predicate ChainAfter(g: Geometry, v: seq<Sector>, v': seq<Sector>, cs: seq<nat>, cs': seq<nat>, sclust: nat, sclust': nat, w: nat, w': nat)
    requires GeometryOk(g, |v|)
  {
    || (cs' == cs && sclust' == sclust && v' == v && (w' == w || (w' < |v| && InFirstFat(g, w'))))
    || (|cs'| == |cs| + 1 && cs <= cs' && sclust' == cs'[0] != 0 && w' < |v| && InFirstFat(g, w')
        && SameOutsideFat(g, v, v') && IsChain(Table(g, v'), cs')
        && ChainReplaced(Table(g, v), Table(g, v'), sclust', cs, cs'))
  }

  lemma KeepsChain(g: Geometry, v: seq<Sector>, v': seq<Sector>, cs: seq<nat>, cs': seq<nat>, sclust: nat, sclust': nat, size: nat, sect: nat, w: nat, w': nat)
    requires GeometryOk(g, |v|) && ChainAfter(g, v, v', cs, cs', sclust, sclust', w, w')
    requires ChainOk(g, v, cs, sclust, size) && WindowOk(g, cs, sect, w) && (sect != 0 ==> g.database <= sect)
    ensures ChainOk(g, v', cs', sclust', size) && WindowOk(g, cs', sect, w')
    ensures cs <= cs' && ClustersInRange(g, cs) && ClustersInRange(g, cs') && SameOutsideFat(g, v, v')
  {
    hide Table;
    ChainInRange(g, v, cs);
    if cs' != cs { ChainInRange(g, v', cs'); }
    if w' < |v| && InFirstFat(g, w') {
      FatWindowOk(g, |v|, cs', sect, w');
    }
  }

  lemma KeepsOthers(g: Geometry, v: seq<Sector>, v': seq<Sector>, cs: seq<nat>, cs': seq<nat>, sclust: nat, sclust': nat, size: nat, w: nat, w': nat)
    requires GeometryOk(g, |v|) && ChainAfter(g, v, v', cs, cs', sclust, sclust', w, w') && ChainOk(g, v, cs, sclust, size)
    ensures Grown(g, v, v', cs, cs', sclust')
  {
    hide Table;
    hide IsChain;
  }

  lemma KeepsBytes(g: Geometry, v: seq<Sector>, v': seq<Sector>, cs: seq<nat>, cs': seq<nat>, size: nat, sect: nat, dirty: bool, buf: Sector)
    requires GeometryOk(g, |v|) && SameOutsideFat(g, v, v') && cs <= cs' && ClustersInRange(g, cs)
    requires (size > 0 ==> HasByte(g, cs, size - 1)) && BufferOk(g, v, cs, sect, dirty, buf)
    ensures BufferOk(g, v', cs', sect, dirty, buf)
    ensures Content(g, if dirty then v'[sect := buf] else v', cs', size) == Content(g, if dirty then v[sect := buf] else v, cs, size)
  {
    BufferOutsideFat(g, v, v', cs, cs', sect, dirty, buf);
    var e, e' := if dirty then v[sect := buf] else v, if dirty then v'[sect := buf] else v';
    OverlayOutsideFat(g, v, v', dirty, sect, buf);
    DataOutsideFat(g, e, e', cs);
    SameClustersSameContent(g, cs, cs', e, e', size);
  }

  /** The cases of CreateOnChain, seen from the volume. */
  lemma CreateGivesChainAfter(g: Geometry, v: seq<Sector>, v': seq<Sector>, s: Alloc, s': Alloc, clst: nat, ch: Choice,
                              cs: seq<nat>, i: nat, sclust: nat, size: nat, w: nat, w': nat)
    requires GeometryOk(g, |v|) && SameOutsideFat(g, v, v') && s.fat == Table(g, v) && s'.fat == Table(g, v')
    requires CreateStep(s, clst, Eoc(g), ch, s') && (ch.Answer? ==> v' == v)
    requires if clst == 0 then cs == [] else i < |cs| && cs[i] == clst
    requires ChainOk(g, v, cs, sclust, size)
    requires w' == w || (w' < |v| && InFirstFat(g, w'))
    requires ch.Take? ==> w' < |v| && InFirstFat(g, w')
    ensures var cs' := if ch.Take? then cs + [ch.cluster] else cs;
      ChainAfter(g, v, v', cs, cs', sclust, if ch.Take? && clst == 0 then ch.cluster else sclust, w, w')
    ensures ch.Answer? && ch.code >= 2 ==> clst != 0 && i + 1 < |cs| && cs[i + 1] == ch.code
    ensures ch.Take? && clst != 0 ==> |cs| == i + 1
    ensures ch.Take? ==> ch.cluster >= 2
    ensures ch.Answer? ==> s' == s
    ensures ch == Answer(0) ==> s.free == 0 || NothingFree(s.fat)
    ensures ch.Answer? && ch.code < 2 ==> clst == 0 || i + 1 == |cs|
    ensures ch == Answer(1) ==> exists c: nat :: InRange(s.fat, c) && s.fat[c] == 1
  {
    EndMarkReadsAsEnd(g, |v|);
    if clst != 0 {
      MemberIsUsed(s.fat, cs, clst);
      if i + 1 < |cs| { assert s.fat[cs[i]] == cs[i + 1] && InRange(s.fat, cs[i + 1]); }
    }
    CreateOnChain(s, clst, Eoc(g), ch, s', cs, i);
    if ch.Answer? {
      AnswerFacts(s.fat, s.free, s.last, clst, ch.code);
    } else {
      TakeFacts(s.fat, s.free, s.last, clst, ch.cluster);
    }
  }

  /** Everything the file keeps across create_chain. */
  lemma KeepsFile(g: Geometry, v: seq<Sector>, v': seq<Sector>, cs: seq<nat>, cs': seq<nat>, sclust: nat, sclust': nat, size: nat,
                  sect: nat, dirty: bool, buf: Sector, w: nat, w': nat)
    requires GeometryOk(g, |v|) && ChainAfter(g, v, v', cs, cs', sclust, sclust', w, w')
    requires ChainOk(g, v, cs, sclust, size) && WindowOk(g, cs, sect, w) && BufferOk(g, v, cs, sect, dirty, buf)
    ensures ChainOk(g, v', cs', sclust', size) && WindowOk(g, cs', sect, w') && BufferOk(g, v', cs', sect, dirty, buf)
    ensures Grown(g, v, v', cs, cs', sclust')
    ensures Content(g, if dirty then v'[sect := buf] else v', cs', size) == Content(g, if dirty then v[sect := buf] else v, cs, size)
  {
    hide Table;
    hide IsChain;
    KeepsChain(g, v, v', cs, cs', sclust, sclust', size, sect, w, w');
    KeepsOthers(g, v, v', cs, cs', sclust, sclust', size, w, w');
    KeepsBytes(g, v, v', cs, cs', size, sect, dirty, buf);
  }

  /** create_chain called for this file: with 0 when it has no chain yet, else
      with the i-th cluster of its chain. The head is recorded when it is new.
      The bytes of the file do not change. */
  method CreateForFile(fp: Fil, clst: nat, ghost i: nat) returns (ret: nat)
    requires fp.Core() && if clst == 0 then fp.chain == [] else i < |fp.chain| && fp.chain[i] == clst
    modifies fp.fs`disk, fp.fs`wflag, fp.fs`winsect, fp.fs`freeClst, fp.fs`lastClst, fp.fs`fsiDirty, fp.fs.win
    modifies fp`sclust, fp`chain
    ensures fp.Core() && fp.Bytes() == old(fp.Bytes())
    ensures SameOutsideFat(fp.fs.g, old(fp.fs.View()), fp.fs.View())
    ensures Grown(fp.fs.g, old(fp.fs.View()), fp.fs.View(), old(fp.chain), fp.chain, fp.sclust)
    ensures old(Mirrored(fp.fs.g, fp.fs.disk)) ==> Mirrored(fp.fs.g, fp.fs.disk)
    ensures WindowKept(fp.fs.g, old(fp.fs.winsect), fp.fs.winsect)
    ensures ret >= 2 ==> var j := if clst == 0 then 0 else i + 1; j < |fp.chain| && fp.chain[j] == ret
    ensures ret < 2 ==> fp.chain == old(fp.chain) && fp.sclust == old(fp.sclust) && fp.fs.View() == old(fp.fs.View())
    ensures ret == 0 ==> fp.fs.freeClst == 0 || NothingFree(Table(fp.fs.g, fp.fs.View()))
    ensures ret < 2 && clst != 0 ==> i + 1 == |fp.chain|
    ensures ret == 1 ==> HasErrorMark(fp.fs)
  {
    hide FatFs.View;
    hide FatFs.ValidWindow;
    hide Mirrored;
    hide Table;
    hide IsChain;
    hide Decides;
    hide Taken;
    hide ChainOk;
    hide WindowOk;
    hide BufferOk;
    hide Grown;
    hide ChainAfter;
    hide Content;
    hide CreateStep;
    hide NothingFree;
    hide InFirstFat;
    hide GeometryOk;
    ghost var was, cs, v, w, sc := State(fp.fs), fp.chain, fp.fs.View(), fp.fs.winsect, fp.sclust;
    ghost var ch;
    ret, ch := CreateChain(fp.fs, clst);
    CreateGivesChainAfter(fp.fs.g, v, fp.fs.View(), was, State(fp.fs), clst, ch, cs, i, sc, fp.objsize, w, fp.fs.winsect);
    if ch.Take? { fp.chain := cs + [ret]; }
    if clst == 0 && ret >= 2 { fp.sclust := ret; }
    KeepsFile(fp.fs.g, v, fp.fs.View(), cs, fp.chain, sc, fp.sclust, fp.objsize, fp.sect, fp.dirty, fp.buf[..], w, fp.fs.winsect);
  }

  // ----- positions of an open file -----

  /** clust is the cluster of the position itself, which the chain covers. */
  ghost predicate Ready(fp: Fil)
    requires fp.fs.g.csize > 0
    reads fp
  {
    fp.fptr <= fp.objsize && HasByte(fp.fs.g, fp.chain, fp.fptr) && fp.clust == fp.chain[ClusterIndex(fp.fs.g, fp.fptr / SECTOR_SIZE)]
  }

  /** On a sector boundary: the cluster of the position against that of the byte
      before it. */
  lemma BoundaryStep(g: Geometry, fptr: nat)
    requires g.csize > 0 && fptr > 0 && fptr % SECTOR_SIZE == 0
    ensures ClusterIndex(g, fptr / SECTOR_SIZE) == ClusterIndex(g, (fptr - 1) / SECTOR_SIZE) +
      if SectorInCluster(g, fptr / SECTOR_SIZE) == 0 then 1 else 0
  {
    var k := fptr / SECTOR_SIZE;
    assert fptr == SECTOR_SIZE * k && k >= 1;
    PreviousSector(g, k);
    DivModIs(fptr - 1, SECTOR_SIZE, k - 1, SECTOR_SIZE - 1);
  }

  /** Inside a cluster the position's cluster is that of the byte before it. */
  lemma ReadyInsideCluster(fp: Fil)
    requires fp.Valid() && fp.fptr % SECTOR_SIZE == 0 && SectorInCluster(fp.fs.g, fp.fptr / SECTOR_SIZE) != 0
    ensures Ready(fp)
  {
    hide Fil.Core;
    FirstSector(fp.fs.g);
    BoundaryStep(fp.fs.g, fp.fptr);
  }

  /** Doing nothing is a growth by no cluster. */
  lemma SameFileGrown(fp: Fil)
    requires fp.Core()
    ensures Grown(fp.fs.g, fp.fs.View(), fp.fs.View(), fp.chain, fp.chain, fp.sclust)
    ensures fp.chain != [] ==> fp.sclust == fp.chain[0] >= 2
  {
    hide Table;
    GrownByData(fp.fs.g, fp.fs.View(), fp.fs.View(), fp.chain, fp.sclust);
    if fp.chain != [] { ChainInRange(fp.fs.g, fp.fs.View(), fp.chain); }
  }

  /** A run inside one cluster stays in the file's data, away from the window. */
  lemma RunInCluster(g: Geometry, sectors: nat, cs: seq<nat>, k: nat, n: nat, sect: nat, winsect: nat)
    requires GeometryOk(g, sectors) && ClustersInRange(g, cs) && HasSector(g, cs, k)
    requires 1 <= n && SectorInCluster(g, k) + n <= g.csize && WindowOk(g, cs, sect, winsect)
    ensures g.database <= SectorOf(g, cs, k) && SectorOf(g, cs, k) + n <= sectors
    ensures !(SectorOf(g, cs, k) <= winsect < SectorOf(g, cs, k) + n)
    ensures forall s: nat :: SectorOf(g, cs, k) <= s < SectorOf(g, cs, k) + n ==> InClusters(g, cs, s)
  {
    var c, s0 := cs[ClusterIndex(g, k)], SectorOf(g, cs, k);
    assert c in cs;
    assert forall s: nat :: s0 <= s < s0 + n ==> InCluster(g, c, s);
    ClusterInData(g, sectors, c, s0);
    ClusterInData(g, sectors, c, s0 + n - 1);
  }

  /** The unsigned test whether the buffered sector is in the run. */
  lemma InRun(sect: nat, s: nat, n: nat)
    requires sect < U32 && s + n < U32 && (sect == 0 ==> s > 0)
    ensures Wrap32(sect - s) < n <==> s <= sect < s + n
  {
    if sect >= s {
      DivModIs(sect - s, U32, 0, sect - s);
    } else {
      DivModIs(sect - s, U32, -1, sect - s + U32);
    }
  }

  /** The position after n sectors written from sector k on. */
  lemma PositionAfterRun(g: Geometry, cs: seq<nat>, size: nat, k: nat, n: nat, sect: nat)
    requires g.csize > 0 && HasSector(g, cs, k) && 1 <= n && SectorInCluster(g, k) + n <= g.csize
    requires size > 0 ==> HasByte(g, cs, size - 1)
    ensures At(g, cs, SECTOR_SIZE * (k + n), cs[ClusterIndex(g, k)], sect)
    ensures HasByte(g, cs, Max(size, SECTOR_SIZE * (k + n)) - 1)
  {
    NextSectors(g, k, n - 1);
    DivModIs(SECTOR_SIZE * (k + n) - 1, SECTOR_SIZE, k + n - 1, SECTOR_SIZE - 1);
  }

  /** The position after part of file sector k. */
  lemma PositionAfterPart(g: Geometry, cs: seq<nat>, size: nat, k: nat, o: nat, n: nat)
    requires g.csize > 0 && HasSector(g, cs, k) && 1 <= n && o + n <= SECTOR_SIZE && (size > 0 ==> HasByte(g, cs, size - 1))
    ensures At(g, cs, SECTOR_SIZE * k + o + n, cs[ClusterIndex(g, k)], SectorOf(g, cs, k))
    ensures HasByte(g, cs, Max(size, SECTOR_SIZE * k + o + n) - 1)
  {
    hide ClusterIndex;
    hide SectorOf;
    var end := SECTOR_SIZE * k + o + n;
    DivModIs(end - 1, SECTOR_SIZE, k, o + n - 1);
    if o + n < SECTOR_SIZE {
      DivModIs(end, SECTOR_SIZE, k, o + n);
    } else {
      DivModIs(end, SECTOR_SIZE, k + 1, 0);
    }
  }

  /** Clusters and sectors that a file in order refers to. */
  lemma FileFacts(fp: Fil)
    requires fp.Core()
    ensures ClustersInRange(fp.fs.g, fp.chain) && fp.sect < |fp.fs.disk| && fp.fs.g.csize > 0
    ensures forall c :: c in fp.chain ==> Clst2Sect(fp.fs.g, c) == ClusterBase(fp.fs.g, c)
    ensures fp.objsize > 0 ==> HasByte(fp.fs.g, fp.chain, fp.objsize - 1)
  {
    hide Table;
    hide IsChain;
    ChainInRange(fp.fs.g, fp.fs.View(), fp.chain);
    forall c | c in fp.chain ensures Clst2Sect(fp.fs.g, c) == ClusterBase(fp.fs.g, c) {
      Clst2SectIs(fp.fs.g, |fp.fs.disk|, c);
    }
  }

  /** Where the position is, in either case. */
  lemma PartFacts(fp: Fil)
    requires fp.Core()
    requires if fp.fptr % SECTOR_SIZE == 0 then Ready(fp) else At(fp.fs.g, fp.chain, fp.fptr, fp.clust, fp.sect)
    ensures var k := fp.fptr / SECTOR_SIZE;
      && HasSector(fp.fs.g, fp.chain, k) && fp.clust == fp.chain[ClusterIndex(fp.fs.g, k)]
      && SectorOf(fp.fs.g, fp.chain, k) < |fp.fs.disk|
      && (fp.fptr % SECTOR_SIZE != 0 ==> fp.sect == SectorOf(fp.fs.g, fp.chain, k) != 0)
  {
    hide Table;
    hide IsChain;
    ChainInRange(fp.fs.g, fp.fs.View(), fp.chain);
    var k, o := fp.fptr / SECTOR_SIZE, fp.fptr % SECTOR_SIZE;
    if o != 0 { DivModIs(fp.fptr - 1, SECTOR_SIZE, k, o - 1); }
    SectorOfInData(fp.fs.g, |fp.fs.disk|, fp.chain, k);
  }

  /** FlushBuffer, seen from the file. */
  method FlushAndKeep(fp: Fil)
    requires fp.Core()
    modifies fp`dirty, fp.fs`disk
    ensures fp.Core() && !fp.dirty && fp.Bytes() == old(fp.Bytes())
    ensures fp.Eff() == old(fp.Eff()) == fp.fs.View() && Table(fp.fs.g, fp.fs.View()) == Table(fp.fs.g, old(fp.fs.View()))
    ensures Grown(fp.fs.g, old(fp.fs.View()), fp.fs.View(), fp.chain, fp.chain, fp.sclust)
    ensures old(Mirrored(fp.fs.g, fp.fs.disk)) ==> Mirrored(fp.fs.g, fp.fs.disk)
  {
    hide FatFs.View;
    hide FatFs.ValidWindow;
    hide Mirrored;
    hide Table;
    hide IsChain;
    ghost var v := fp.fs.View();
    FlushBuffer(fp);
    DataOnlyTable(fp.fs.g, v, fp.fs.View());
    GrownByData(fp.fs.g, v, fp.fs.View(), fp.chain, fp.sclust);
  }

  /** A buffer that has just been loaded with a sector of the file. */
  lemma LoadedOk(g: Geometry, v: seq<Sector>, cs: seq<nat>, k: nat, sect: nat, w: nat)
    requires GeometryOk(g, |v|) && ClustersInRange(g, cs) && HasSector(g, cs, k) && WindowOk(g, cs, sect, w)
    ensures SectorOf(g, cs, k) < |v|
    ensures BufferOk(g, v, cs, SectorOf(g, cs, k), false, v[SectorOf(g, cs, k)]) && WindowOk(g, cs, SectorOf(g, cs, k), w)
  {
    SectorOfInData(g, |v|, cs, k);
  }

  /** Load the buffer, which is not dirty, with file sector k. */
  method ReloadBuffer(fp: Fil, s: nat, ghost k: nat)
    requires fp.Core() && !fp.dirty && HasSector(fp.fs.g, fp.chain, k) && s == SectorOf(fp.fs.g, fp.chain, k)
    modifies fp.buf, fp`sect
    ensures fp.Core() && fp.sect == s && fp.Eff() == old(fp.Eff()) && fp.fs.View() == old(fp.fs.View())
    ensures s < |fp.Eff()| && fp.buf[..] == fp.Eff()[s]
  {
    hide FatFs.View;
    hide FatFs.ValidWindow;
    hide Table;
    hide ChainOk;
    FileFacts(fp);
    SectorOfInData(fp.fs.g, |fp.fs.disk|, fp.chain, k);
    LoadedOk(fp.fs.g, fp.fs.View(), fp.chain, k, fp.sect, fp.fs.winsect);
    ReadSector(fp.fs, fp.buf, s);
    fp.sect := s;
  }

  /** Write the buffer back if it is dirty and load file sector k. */
  method FlushAndLoad(fp: Fil, s: nat, ghost k: nat)
    requires fp.Core() && HasSector(fp.fs.g, fp.chain, k) && s == SectorOf(fp.fs.g, fp.chain, k)
    modifies fp.fs`disk, fp.buf, fp`dirty, fp`sect
    ensures fp.Core() && fp.sect == s && fp.Bytes() == old(fp.Bytes()) && fp.Eff() == old(fp.Eff())
    ensures s < |fp.Eff()| && fp.buf[..] == fp.Eff()[s] && Table(fp.fs.g, fp.fs.View()) == Table(fp.fs.g, old(fp.fs.View()))
    ensures Grown(fp.fs.g, old(fp.fs.View()), fp.fs.View(), fp.chain, fp.chain, fp.sclust)
    ensures old(Mirrored(fp.fs.g, fp.fs.disk)) ==> Mirrored(fp.fs.g, fp.fs.disk)
  {
    hide FatFs.View;
    hide FatFs.ValidWindow;
    hide Mirrored;
    hide Table;
    hide ChainOk;
    hide WindowOk;
    hide SectorOf;
    hide HasSector;
    hide Content;
    FlushAndKeep(fp);
    ReloadBuffer(fp, s, k);
  }
}

/** Properties that span the layers of the file system: what an operation on one
    file does to every other file, and how the operations compose
    (src/fs/fat32/ff.cpp). */
module FatWhole {
  import opened FatVolume
  import opened FatTable
  import opened FatChains
  import opened FatLayout
  import opened FatFile
  import opened FatWrite
  import opened FatRead
  import opened FatSeek

  /** Chains of different files share no sector. */
  lemma OtherClusters(g: Geometry, cs: seq<nat>, other: seq<nat>, s: nat)
    requires ClustersInRange(g, cs) && ClustersInRange(g, other) && forall x :: x in other ==> x !in cs
    requires InClusters(g, other, s)
    ensures !InClusters(g, cs, s)
  {
    var c :| c in other && InCluster(g, c, s);
    forall d | d in cs ensures !InCluster(g, d, s) {
      if InCluster(g, d, s) { ClustersDisjoint(g, c, d, s); }
    }
  }

  /** A change confined to the clusters of one file does not reach the sectors of
      another chain. */
  lemma OtherSectorsKept(g: Geometry, v: seq<Sector>, v': seq<Sector>, cs: seq<nat>, other: seq<nat>)
    requires GeometryOk(g, |v|) && ClustersInRange(g, cs) && ClustersInRange(g, other)
    requires OthersKept(g, v, v', cs) && forall x :: x in other ==> x !in cs
    ensures SameOnClusters(g, other, v, v')
  {
    forall s: nat | s < |v| && InClusters(g, other, s) ensures v'[s] == v[s] {
      OtherClusters(g, cs, other, s);
      var c :| c in other && InCluster(g, c, s);
      ClusterInData(g, |v|, c, s);
    }
  }

  /** The chains next to one that is replaced. */
  lemma OtherChain(fat: Fat, fat': Fat, chains: map<nat, seq<nat>>, head: nat, cs': seq<nat>, k: nat)
    requires WellFormed(fat, chains) && k in chains && k != head
    requires ChainReplaced(fat, fat', head, OldChain(chains, head), cs')
    ensures WellFormed(fat', Replaced(chains, head, cs'))
    ensures k in Replaced(chains, head, cs') && Replaced(chains, head, cs')[k] == chains[k]
    ensures forall x :: x in chains[k] ==> x !in cs' && x !in OldChain(chains, head)
    ensures IsChain(fat, chains[k]) && IsChain(fat', chains[k]) && (head in chains ==> IsChain(fat, chains[head])) && (cs' != [] ==> IsChain(fat', cs'))
  {
    hide IsChain;
    ReplacedWellFormed(fat, fat', chains, head, cs');
    OthersDisjointFrom(fat, chains, head, cs', k);
  }

  /** An operation on the file with the first cluster head: its chain went from
      cs to cs', and outside the FAT only the clusters touched changed. f_write,
      f_lseek and f_read touch the new chain (Grown), f_truncate the old one. */
  ghost predicate FileChanged(g: Geometry, v: seq<Sector>, v': seq<Sector>, cs: seq<nat>, cs': seq<nat>, head: nat, touched: seq<nat>)
    requires GeometryOk(g, |v|)
  {
    && OthersKept(g, v, v', touched) && (touched == cs' || touched == cs)
    && ChainReplaced(Table(g, v), Table(g, v'), head, cs, cs')
  }

  /** The chain the operation starts from is that of a file of the volume. */
  ghost predicate OnVolume(fat: Fat, chains: map<nat, seq<nat>>, head: nat, cs: seq<nat>, cs': seq<nat>) {
    if cs != [] then IsChain(fat, cs) && cs[0] == head && head in chains else cs' == [] ==> head == 0
  }

  /** The chain of every other file, and every sector of it, is left alone. */
  lemma BesideChain(g: Geometry, v: seq<Sector>, v': seq<Sector>, chains: map<nat, seq<nat>>, head: nat, cs: seq<nat>, cs': seq<nat>,
                    touched: seq<nat>, k: nat)
    requires GeometryOk(g, |v|) && WellFormed(Table(g, v), chains)
    requires FileChanged(g, v, v', cs, cs', head, touched) && OnVolume(Table(g, v), chains, head, cs, cs')
    requires k in chains && k != head
    ensures WellFormed(Table(g, v'), Replaced(chains, head, cs'))
    ensures k in Replaced(chains, head, cs') && Replaced(chains, head, cs')[k] == chains[k]
    ensures IsChain(Table(g, v), chains[k]) && IsChain(Table(g, v'), chains[k])
    ensures ClustersInRange(g, chains[k]) && SameOnClusters(g, chains[k], v, v')
  {
    hide Table;
    hide IsChain;
    StartsFromOldChain(Table(g, v), Table(g, v'), chains, head, cs, cs');
    OtherChain(Table(g, v), Table(g, v'), chains, head, cs', k);
    ChainInRange(g, v, chains[k]);
    if touched == cs' { ChainInRange(g, v', cs'); } else { ChainInRange(g, v, cs); }
    OtherSectorsKept(g, v, v', touched, chains[k]);
  }

  /** On a well-formed table the table stays well formed with just the one file's
      chain replaced. */
  lemma VolumeStaysWellFormed(g: Geometry, v: seq<Sector>, v': seq<Sector>, chains: map<nat, seq<nat>>, head: nat, cs: seq<nat>,
                              cs': seq<nat>, touched: seq<nat>)
    requires GeometryOk(g, |v|) && WellFormed(Table(g, v), chains)
    requires FileChanged(g, v, v', cs, cs', head, touched) && OnVolume(Table(g, v), chains, head, cs, cs')
    ensures OldChain(chains, head) == cs
    ensures WellFormed(Table(g, v'), Replaced(chains, head, cs'))
  {
    hide Table;
    hide IsChain;
    StartsFromOldChain(Table(g, v), Table(g, v'), chains, head, cs, cs');
    ReplacedWellFormed(Table(g, v), Table(g, v'), chains, head, cs');
  }

  /** Every other file keeps its chain and all its bytes. */
  lemma OtherFilesKept(g: Geometry, v: seq<Sector>, v': seq<Sector>, chains: map<nat, seq<nat>>, head: nat, cs: seq<nat>, cs': seq<nat>,
                       touched: seq<nat>, k: nat, size: nat)
    requires GeometryOk(g, |v|) && WellFormed(Table(g, v), chains)
    requires FileChanged(g, v, v', cs, cs', head, touched) && OnVolume(Table(g, v), chains, head, cs, cs')
    requires k in chains && k != head && (size > 0 ==> HasByte(g, chains[k], size - 1))
    ensures k in Replaced(chains, head, cs') && Replaced(chains, head, cs')[k] == chains[k]
    ensures Content(g, v', chains[k], size) == Content(g, v, chains[k], size)
  {
    hide Table;
    hide IsChain;
    BesideChain(g, v, v', chains, head, cs, cs', touched, k);
    SameClustersSameContent(g, chains[k], chains[k], v, v', size);
  }

  /** The position determines the current cluster, and inside a sector the
      buffered sector: a seek from the current cluster and one from the start of
      the chain that end at the same position leave the same state. */
  lemma PositionDeterminesCluster(g: Geometry, cs: seq<nat>, fptr: nat, i: nat, clust: nat, sect: nat, clust': nat, sect': nat)
    requires g.csize > 0 && fptr > 0 && ClusterStart(g, i) < fptr <= ClusterStart(g, i + 1)
    requires At(g, cs, fptr, clust, sect) && At(g, cs, fptr, clust', sect')
    ensures i < |cs| && clust == clust' == cs[i]
    ensures fptr % SECTOR_SIZE != 0 ==> sect == sect'
  {
    ByteOfCluster(g, i, fptr - 1 - ClusterStart(g, i));
  }

  lemma SlicedTwice(b: seq<Byte>, n: nat, lo: nat, hi: nat)
    requires lo <= hi <= n <= |b|
    ensures b[..n][lo..hi] == b[lo..hi]
  {
  }

  /** Round trip: what f_write put into the file comes back from f_lseek to the
      old position and f_read, whether it went through the buffer, was written
      directly or was split between both. */
  method WriteSeekRead(fp: Fil, data: seq<Byte>) returns (res: FResult, bw: nat, back: seq<Byte>)
    requires fp.Valid() && |data| < U32 && fp.err == FR_OK && fp.canRead && fp.canWrite
    modifies fp.fs`disk, fp.fs`wflag, fp.fs`winsect, fp.fs`freeClst, fp.fs`lastClst, fp.fs`fsiDirty, fp.fs.win
    modifies fp.buf, fp`dirty, fp`sect, fp`fptr, fp`objsize, fp`clust, fp`sclust, fp`chain, fp`err, fp`modified, fp`adrift
    ensures res == FR_OK ==> bw <= |data| && back == data[..bw] && fp.Valid()
    ensures res != FR_OK ==> fp.Core() && HasErrorMark(fp.fs)
  {
    hide FatFs.View;
    hide FatFs.ValidWindow;
    hide Table;
    hide Grown;
    hide Mirrored;
    hide ChainOk;
    hide BufferOk;
    hide WindowOk;
    hide At;
    hide Content;
    hide HasErrorMark;
    hide NothingFree;
    hide Fil.Core;
    hide Fil.Bytes;
    hide Reached;
    hide BufferOwned;
    var lo := fp.fptr;
    ghost var b := fp.Bytes();
    res, bw := FWrite(fp, data);
    back := [];
    if res != FR_OK { return; }
    ghost var b1 := fp.Bytes();
    assert b1[lo..lo + bw] == data[..bw];
    res := FLseek(fp, lo);
    if res != FR_OK { return; }
    ghost var b2 := fp.Bytes();
    SlicedTwice(b2, |b1|, lo, lo + bw);
    res, back := FRead(fp, bw);
  }
}

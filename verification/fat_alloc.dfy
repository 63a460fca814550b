/** Releasing, allocating and counting clusters on a mounted volume
    (src/fs/fat32/ff.cpp remove_chain, create_chain, the scan of f_getfree). */
module FatAlloc {
  import opened FatVolume
  import opened FatTable
  import opened FatChains

  const END_MARK := 0xFFFF_FFFF

  /** The value an end mark has once it is in the table. */
  function Eoc(g: Geometry): nat {
    Truncate(g.fatType, END_MARK)
  }

  /** What the volume's table and hints look like to the allocator. */
  ghost function State(fs: FatFs): (s: Alloc)
    requires fs.ValidWindow()
    reads fs`disk, fs`winsect, fs`wflag, fs`freeClst, fs`lastClst, fs.win
    ensures |s.fat| == fs.g.nFatent
  {
    Alloc(Table(fs.g, fs.View()), fs.freeClst, fs.lastClst)
  }

  lemma ClusterFitsEntry(g: Geometry, sectors: nat, c: nat)
    requires GeometryOk(g, sectors) && c < g.nFatent
    ensures Truncate(g.fatType, c) == c
  {
  }

  /** put_fat on a cluster that is in range. */
  method SetEntry(fs: FatFs, clst: nat, val: nat)
    requires fs.Valid() && 2 <= clst < fs.g.nFatent && val < U32
    modifies fs`disk, fs`wflag, fs`winsect, fs.win
    ensures fs.Valid() && SameOutsideFat(fs.g, old(fs.View()), fs.View())
    ensures old(Mirrored(fs.g, fs.disk)) ==> Mirrored(fs.g, fs.disk)
    ensures Table(fs.g, fs.View()) == Table(fs.g, old(fs.View()))[clst := Truncate(fs.g.fatType, val)]
    ensures WindowInFat(fs)
  {
    hide Table;
    hide FatFs.View;
    hide FatFs.ValidWindow;
    hide Mirrored;
    hide WindowInFat;
    hide BytesUpdated;
    hide SameOutsideFat;
    hide EntryBytes;
    ghost var v := fs.View();
    var _ := PutFat(fs, clst, val);
    UpdatedOutside(fs.g, v, fs.View(), EntryOffset(fs.g.fatType, clst), EntryBytes(fs.g, v, clst, val));
  }

  method RemoveChain(fs: FatFs, clst: nat, pclst: nat) returns (res: FResult)
    requires fs.Valid()
    modifies fs`disk, fs`wflag, fs`winsect, fs`freeClst, fs`fsiDirty, fs.win
    ensures fs.Valid() && SameOutsideFat(fs.g, old(fs.View()), fs.View())
    ensures old(Mirrored(fs.g, fs.disk)) ==> Mirrored(fs.g, fs.disk)
    ensures RemoveStep(old(State(fs)), clst, pclst, Eoc(fs.g), res, State(fs))
    ensures if 2 <= clst < fs.g.nFatent && (pclst == 0 || 2 <= pclst < fs.g.nFatent) then WindowInFat(fs) else unchanged(fs) && unchanged(fs.win)
  {
    hide Table;
    hide FatFs.View;
    hide FatFs.ValidWindow;
    hide Mirrored;
    hide WindowInFat;
    hide SameOutsideFat;
    hide FreeCount;
    hide Release;
    hide UsedBelow;
    ghost var v := fs.View();
    SameOutsideFatRefl(fs.g, v);
    if clst < 2 || clst >= fs.g.nFatent { return FR_INT_ERR; }
    if pclst != 0 {
      if pclst < 2 || pclst >= fs.g.nFatent { return FR_INT_ERR; }  // put_fat refuses it
      SetEntry(fs, pclst, END_MARK);
    }
    ghost var v1 := fs.View();
    res := ReleaseLoop(fs, clst);
    SameOutsideFatRefl(fs.g, v);
    SameOutsideFatTrans(fs.g, v, v1, fs.View());
  }

  /** One round of the loop: read the entry and, unless it is free or an error
      mark, clear it and count it. */
  method ReleaseOne(fs: FatFs, clst: nat) returns (nxt: nat)
    requires fs.Valid() && 2 <= clst < fs.g.nFatent
    modifies fs`disk, fs`wflag, fs`winsect, fs`freeClst, fs`fsiDirty, fs.win
    ensures fs.Valid() && SameOutsideFat(fs.g, old(fs.View()), fs.View())
    ensures old(Mirrored(fs.g, fs.disk)) ==> Mirrored(fs.g, fs.disk)
    ensures nxt == Table(fs.g, old(fs.View()))[clst] && WindowInFat(fs)
    ensures nxt < 2 ==> Table(fs.g, fs.View()) == Table(fs.g, old(fs.View())) && fs.freeClst == old(fs.freeClst)
    ensures nxt >= 2 ==>
      && Table(fs.g, fs.View()) == Table(fs.g, old(fs.View()))[clst := 0]
      && fs.freeClst == Recount(old(fs.freeClst), fs.g.nFatent - 2, 1)
  {
    hide Table;
    hide FatFs.View;
    hide Mirrored;
    hide BytesUpdated;
    SameOutsideFatRefl(fs.g, fs.View());
    nxt := GetFat(fs, clst);
    if nxt >= 2 {
      SetEntry(fs, clst, 0);
      if fs.freeClst < fs.g.nFatent - 2 {
        fs.freeClst := fs.freeClst + 1;
        fs.fsiDirty := true;
      }
    }
  }

  method ReleaseLoop(fs: FatFs, start: nat) returns (res: FResult)
    requires fs.Valid() && 2 <= start < fs.g.nFatent
    modifies fs`disk, fs`wflag, fs`winsect, fs`freeClst, fs`fsiDirty, fs.win
    ensures fs.Valid() && SameOutsideFat(fs.g, old(fs.View()), fs.View())
    ensures old(Mirrored(fs.g, fs.disk)) ==> Mirrored(fs.g, fs.disk)
    ensures (res, Table(fs.g, fs.View())) == Release(Table(fs.g, old(fs.View())), start)
    ensures FreeCount(Table(fs.g, fs.View())) >= FreeCount(Table(fs.g, old(fs.View())))
    ensures fs.freeClst == Recount(old(fs.freeClst), fs.g.nFatent - 2,
      FreeCount(Table(fs.g, fs.View())) - FreeCount(Table(fs.g, old(fs.View()))))
    ensures WindowInFat(fs)
  {
    hide Table;
    hide FatFs.View;
    hide FatFs.Valid;
    hide FatFs.ValidWindow;
    hide SameOutsideFat;
    hide Mirrored;
    hide FreeCount;
    hide UsedBelow;
    hide Release;
    hide WindowInFat;
    hide GeometryOk;
    var clst := start;
    ghost var k: nat := 0;
    ghost var was := Table(fs.g, fs.View());
    ghost var fat := was;
    SameOutsideFatRefl(fs.g, fs.View());
    while true
      invariant fs.Valid() && 2 <= clst < fs.g.nFatent && |fat| == fs.g.nFatent == |was|
      invariant fat == Table(fs.g, fs.View())
      invariant SameOutsideFat(fs.g, old(fs.View()), fs.View())
      invariant old(Mirrored(fs.g, fs.disk)) ==> Mirrored(fs.g, fs.disk)
      invariant Release(was, start) == Release(fat, clst)
      invariant FreeCount(fat) == FreeCount(was) + k
      invariant fs.freeClst == Recount(old(fs.freeClst), fs.g.nFatent - 2, k)
      decreases UsedBelow(fat, fs.g.nFatent)
    {
      ghost var v := fs.View();
      ReleaseRound(fat, clst);
      var nxt := ReleaseOne(fs, clst);
      SameOutsideFatTrans(fs.g, old(fs.View()), v, fs.View());
      if nxt == 0 { return FR_OK; }
      if nxt == 1 { return FR_INT_ERR; }
      fat := fat[clst := 0];
      k := k + 1;
      if nxt >= fs.g.nFatent { return FR_OK; }
      clst := nxt;
    }
  }

  /** The wrapping search: it probes every cluster once, from scl + 1 round to
      scl, and returns the first free one; 1 on an error mark, 0 when there is
      neither. */
  method SearchFree(fs: FatFs, scl: nat) returns (ncl: nat)
    requires fs.Valid() && 1 <= scl < fs.g.nFatent
    modifies fs`disk, fs`wflag, fs`winsect, fs.win
    ensures fs.Valid() && fs.View() == old(fs.View())
    ensures old(Mirrored(fs.g, fs.disk)) ==> Mirrored(fs.g, fs.disk)
    ensures SearchResult(Table(fs.g, fs.View()), scl, ncl)
    ensures WindowInFat(fs)
  {
    hide Table;
    hide FatFs.View;
    hide FatFs.Valid;
    hide FatFs.ValidWindow;
    hide Mirrored;
    hide WindowInFat;
    hide Probed;
    hide SearchResult;
    ghost var fat := Table(fs.g, fs.View());
    var n := fs.g.nFatent;
    ghost var k := 0;  // probes made
    assert Probed(fat, scl, 0) by { NoProbe(fat, scl); }
    ncl := scl;
    while true
      invariant fs.Valid() && fs.View() == old(fs.View())
      invariant old(Mirrored(fs.g, fs.disk)) ==> Mirrored(fs.g, fs.disk)
      invariant 0 <= k <= n - 2 && Probed(fat, scl, k) && ncl == Probe(n, scl, k)
      invariant k == n - 2 ==> scl == 1 && SearchResult(fat, scl, 0)
      invariant k > 0 ==> WindowInFat(fs)
      decreases n - k
    {
      ncl := ncl + 1;
      if ncl >= n {
        ncl := 2;
        if ncl > scl { return 0; }
      }
      k := k + 1;
      ProbeOutcome(fat, scl, k);
      var cs := GetFat(fs, ncl);
      if cs == 0 { return; }
      if cs == 1 { return 1; }
      if ncl == scl { return 0; }
    }
  }

  /** create_chain up to the choice of a cluster. */
  method ChooseCluster(fs: FatFs, clst: nat) returns (ch: Choice)
    requires fs.Valid()
    modifies fs`disk, fs`wflag, fs`winsect, fs.win
    ensures fs.Valid() && fs.View() == old(fs.View())
    ensures old(Mirrored(fs.g, fs.disk)) ==> Mirrored(fs.g, fs.disk)
    ensures Decides(Table(fs.g, fs.View()), fs.freeClst, fs.lastClst, clst, ch)
    ensures ch.Take? || ch.code >= 2 ==> WindowInFat(fs)
    ensures fs.winsect == old(fs.winsect) || WindowInFat(fs)
  {
    hide Chosen;
    hide InFirstFat;
    hide Table;
    hide FatFs.View;
    hide FatFs.ValidWindow;
    hide Mirrored;
    hide WindowInFat;
    hide FirstHit;
    hide NothingFree;
    hide SearchResult;
    ghost var fat := Table(fs.g, fs.View());
    var n := fs.g.nFatent;
    var scl, cs;
    if clst == 0 {
      scl := fs.lastClst;
      if scl == 0 || scl >= n { scl := 1; }
    } else {
      cs := GetFat(fs, clst);
      if cs < 2 { return Answer(1); }
      if cs < n { return Answer(cs); }
      scl := clst;
    }
    if fs.freeClst == 0 { return Answer(0); }
    if scl == clst {
      var ncl := scl + 1;
      if ncl >= n { ncl := 2; }
      cs := GetFat(fs, ncl);
      if cs < 2 {
        NeighbourDecides(fat, fs.freeClst, fs.lastClst, clst);
        return if cs == 1 then Answer(1) else Take(ncl);
      }
      cs := fs.lastClst;
      if cs >= 2 && cs < n { scl := cs; }
    }
    var r := SearchFree(fs, scl);
    SearchDecides(fat, fs.freeClst, fs.lastClst, clst, r);
    return if r < 2 then Answer(r) else Take(r);
  }

  /** create_chain: the decision is acted on. When a cluster is taken the table
      gains exactly that cluster (end-marked, linked behind clst if given) and
      the hints follow; any other answer leaves the volume as it was. */
  method CreateChain(fs: FatFs, clst: nat) returns (ret: nat, ghost ch: Choice)
    requires fs.Valid()
    modifies fs`disk, fs`wflag, fs`winsect, fs`freeClst, fs`lastClst, fs`fsiDirty, fs.win
    ensures fs.Valid() && SameOutsideFat(fs.g, old(fs.View()), fs.View())
    ensures old(Mirrored(fs.g, fs.disk)) ==> Mirrored(fs.g, fs.disk)
    ensures CreateStep(old(State(fs)), clst, Eoc(fs.g), ch, State(fs))
    ensures ret == match ch case Answer(code) => code case Take(c) => c
    ensures ch.Answer? ==> fs.View() == old(fs.View())
    ensures ch.Take? || ret >= 2 ==> WindowInFat(fs)
    ensures fs.winsect == old(fs.winsect) || WindowInFat(fs)
  {
    hide NothingFree;
    hide Truncate;
    hide Chosen;
    hide Table;
    hide FatFs.View;
    hide FatFs.ValidWindow;
    hide Mirrored;
    hide WindowInFat;
    hide Decides;
    hide BytesUpdated;
    hide SameOutsideFat;
    hide Taken;
    SameOutsideFatRefl(fs.g, fs.View());
    ghost var fat := Table(fs.g, fs.View());
    var choice := ChooseCluster(fs, clst);
    ch := choice;
    if choice.Answer? { return choice.code, ch; }
    ret := choice.cluster;
    TakeFacts(fat, fs.freeClst, fs.lastClst, clst, ret);
    TakeCluster(fs, clst, ret);
    fs.lastClst := ret;
    if fs.freeClst <= fs.g.nFatent - 2 { fs.freeClst := fs.freeClst - 1; }
    fs.fsiDirty := true;
  }

  /** Mark the new cluster as the end and link it from the previous one. */
  method TakeCluster(fs: FatFs, clst: nat, ncl: nat)
    requires fs.Valid() && 2 <= ncl < fs.g.nFatent && (clst == 0 || 2 <= clst < fs.g.nFatent)
    modifies fs`disk, fs`wflag, fs`winsect, fs.win
    ensures fs.Valid() && SameOutsideFat(fs.g, old(fs.View()), fs.View())
    ensures old(Mirrored(fs.g, fs.disk)) ==> Mirrored(fs.g, fs.disk)
    ensures Table(fs.g, fs.View()) == Taken(Table(fs.g, old(fs.View())), clst, ncl, Eoc(fs.g))
    ensures WindowInFat(fs)
  {
    hide Table;
    hide FatFs.View;
    hide FatFs.ValidWindow;
    hide Mirrored;
    hide WindowInFat;
    hide BytesUpdated;
    hide SameOutsideFat;
    ghost var v := fs.View();
    SetEntry(fs, ncl, END_MARK);
    if clst != 0 {
      ghost var v1 := fs.View();
      SetEntry(fs, clst, ncl);
      SameOutsideFatTrans(fs.g, v, v1, fs.View());
      ClusterFitsEntry(fs.g, |fs.disk|, ncl);
    }
  }
}

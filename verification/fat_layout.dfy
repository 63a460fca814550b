/** Where the bytes of a file lie: file positions, clusters of its chain and
    sectors of the volume (src/fs/fat32/ff.cpp clst2sect and the address
    arithmetic of f_read, f_write and f_lseek). Values only. */
module FatLayout {
  import opened Arith
  import opened FatVolume
  import opened FatTable
  import opened FatChains

  // ----- positions -----

  /** Index in the chain of the cluster that holds file sector k. */
  function ClusterIndex(g: Geometry, k: nat): nat
    requires g.csize > 0
  {
    k / g.csize
  }

  /** Sector offset of file sector k in its cluster. The code masks with
      csize - 1, which is this remainder because csize is a power of two. */
  function SectorInCluster(g: Geometry, k: nat): (r: nat)
    requires g.csize > 0
    ensures r < g.csize
  {
    k % g.csize
  }

  /** Within a cluster the index stays, at its end it moves on by one. */
  lemma NextSectors(g: Geometry, k: nat, j: nat)
    requires g.csize > 0 && SectorInCluster(g, k) + j <= g.csize
    ensures SectorInCluster(g, k) + j < g.csize ==>
      ClusterIndex(g, k + j) == ClusterIndex(g, k) && SectorInCluster(g, k + j) == SectorInCluster(g, k) + j
    ensures SectorInCluster(g, k) + j == g.csize ==>
      ClusterIndex(g, k + j) == ClusterIndex(g, k) + 1 && SectorInCluster(g, k + j) == 0
  {
    var q, r := k / g.csize, k % g.csize;
    assert k == q * g.csize + r;
    if r + j < g.csize {
      DivModIs(k + j, g.csize, q, r + j);
    } else {
      assert (q + 1) * g.csize == q * g.csize + g.csize;
      DivModIs(k + j, g.csize, q + 1, 0);
    }
  }

  /** Stepping to sector k from the one before it. */
  lemma PreviousSector(g: Geometry, k: nat)
    requires g.csize > 0 && k >= 1
    ensures SectorInCluster(g, k) == 0 ==> ClusterIndex(g, k) == ClusterIndex(g, k - 1) + 1
    ensures SectorInCluster(g, k) != 0 ==> ClusterIndex(g, k) == ClusterIndex(g, k - 1)
  {
    NextSectors(g, k - 1, 1);
  }

  lemma FirstSector(g: Geometry)
    requires g.csize > 0
    ensures ClusterIndex(g, 0) == 0 && SectorInCluster(g, 0) == 0
  {
  }

  /** A file sector is determined by its cluster index and offset. */
  lemma PositionInjective(g: Geometry, k: nat, j: nat)
    requires g.csize > 0
    requires ClusterIndex(g, k) == ClusterIndex(g, j) && SectorInCluster(g, k) == SectorInCluster(g, j)
    ensures k == j
  {
    assert k == k / g.csize * g.csize + k % g.csize;
    assert j == j / g.csize * g.csize + j % g.csize;
  }

  lemma IndexMonotone(g: Geometry, k: nat, j: nat)
    requires g.csize > 0 && k <= j
    ensures ClusterIndex(g, k) <= ClusterIndex(g, j)
  {
    var m := g.csize;
    var d := k / m - j / m;
    assert k == k / m * m + k % m;
    assert j == j / m * m + j % m;
    assert k / m * m == j / m * m + d * m;
    if d >= 1 {
      MulAtLeast(d, m);
    }
  }

  // ----- clusters and sectors -----

  lemma {:induction false} ClusterOrder(g: Geometry, c: nat, d: nat)
    requires 2 <= c < d
    ensures ClusterBase(g, c) + g.csize <= ClusterBase(g, d)
  {
    if c + 1 < d { ClusterOrder(g, c, d - 1); }
  }

  /** s is one of the sectors of cluster c. */
  predicate InCluster(g: Geometry, c: nat, s: nat) {
    ClusterBase(g, c) <= s < ClusterBase(g, c) + g.csize
  }

  ghost predicate InClusters(g: Geometry, cs: seq<nat>, s: nat) {
    exists c :: c in cs && InCluster(g, c, s)
  }

  lemma ClustersDisjoint(g: Geometry, c: nat, d: nat, s: nat)
    requires 2 <= c && 2 <= d && InCluster(g, c, s) && InCluster(g, d, s)
    ensures c == d
  {
    hide ClusterBase;
    if c < d { ClusterOrder(g, c, d); }
    if d < c { ClusterOrder(g, d, c); }
  }

  /** The sectors of a cluster in range are data sectors of the volume. */
  lemma ClusterInData(g: Geometry, sectors: nat, c: nat, s: nat)
    requires GeometryOk(g, sectors) && 2 <= c < g.nFatent && InCluster(g, c, s)
    ensures g.database <= s < sectors && s != 0 && !InFatArea(g, s)
  {
    hide ClusterBase;
    ClusterOrder(g, c, g.nFatent);
  }

  /** clst2sect, with its unsigned subtraction. */
  function Clst2Sect(g: Geometry, clst: nat): nat
    requires g.nFatent >= 2
  {
    var c := Wrap32(clst - 2);
    if c >= g.nFatent - 2 then 0 else g.database + g.csize * c
  }

  /** It answers 0 for exactly the numbers that are no cluster of the volume. */
  lemma Clst2SectIs(g: Geometry, sectors: nat, clst: nat)
    requires GeometryOk(g, sectors) && clst < U32
    ensures Clst2Sect(g, clst) == if 2 <= clst < g.nFatent then ClusterBase(g, clst) else 0
    ensures 2 <= clst < g.nFatent ==> Clst2Sect(g, clst) != 0
  {
    if clst >= 2 {
      DivModIs(clst - 2, U32, 0, clst - 2);
      ClusterBaseIsProduct(g, clst);
    } else {
      DivModIs(clst - 2, U32, -1, clst - 2 + U32);
    }
  }

  // ----- files -----

  /** File sector k is covered by the chain. */
  predicate HasSector(g: Geometry, cs: seq<nat>, k: nat)
    requires g.csize > 0
  {
    ClusterIndex(g, k) < |cs|
  }

  predicate HasByte(g: Geometry, cs: seq<nat>, p: nat)
    requires g.csize > 0
  {
    HasSector(g, cs, p / SECTOR_SIZE)
  }

  /** The volume sector that holds file sector k. */
  function SectorOf(g: Geometry, cs: seq<nat>, k: nat): nat
    requires g.csize > 0 && HasSector(g, cs, k)
  {
    ClusterBase(g, cs[ClusterIndex(g, k)]) + SectorInCluster(g, k)
  }

  ghost predicate ClustersInRange(g: Geometry, cs: seq<nat>) {
    && (forall c :: c in cs ==> 2 <= c < g.nFatent)
    && (forall i, j :: 0 <= i < j < |cs| ==> cs[i] != cs[j])
  }

  lemma SectorOfInData(g: Geometry, sectors: nat, cs: seq<nat>, k: nat)
    requires GeometryOk(g, sectors) && ClustersInRange(g, cs) && HasSector(g, cs, k)
    ensures g.database <= SectorOf(g, cs, k) < sectors
    ensures InClusters(g, cs, SectorOf(g, cs, k)) && !InFatArea(g, SectorOf(g, cs, k))
  {
    var c := cs[ClusterIndex(g, k)];
    assert c in cs && InCluster(g, c, SectorOf(g, cs, k));
    ClusterInData(g, sectors, c, SectorOf(g, cs, k));
  }

  lemma SectorOfInjective(g: Geometry, cs: seq<nat>, k: nat, j: nat)
    requires g.csize > 0 && ClustersInRange(g, cs) && HasSector(g, cs, k) && HasSector(g, cs, j)
    requires SectorOf(g, cs, k) == SectorOf(g, cs, j)
    ensures k == j
  {
    var a, b := ClusterIndex(g, k), ClusterIndex(g, j);
    assert cs[a] in cs && cs[b] in cs;
    ClustersDisjoint(g, cs[a], cs[b], SectorOf(g, cs, k));
    assert a == b;
    PositionInjective(g, k, j);
  }

  /** The byte of the file at position p (0 where the chain has no byte). */
  function ByteAt(g: Geometry, v: seq<Sector>, cs: seq<nat>, p: nat): Byte
    requires g.csize > 0
  {
    if HasByte(g, cs, p) && SectorOf(g, cs, p / SECTOR_SIZE) < |v|
    then v[SectorOf(g, cs, p / SECTOR_SIZE)][p % SECTOR_SIZE] else 0
  }

  /** The first size bytes of the file that the chain cs holds on v. */
  function Content(g: Geometry, v: seq<Sector>, cs: seq<nat>, size: nat): (c: seq<Byte>)
    requires g.csize > 0
    ensures |c| == size
  {
    seq(size, p requires 0 <= p < size => ByteAt(g, v, cs, p))
  }

  function Max(a: nat, b: nat): nat { if a < b then b else a }

  /** old with data laid over it from lo on, extended where data reaches beyond. */
  function Overwrite(was: seq<Byte>, lo: nat, data: seq<Byte>): (r: seq<Byte>)
    requires lo <= |was|
    ensures |r| == Max(|was|, lo + |data|)
  {
    was[..lo] + data + if lo + |data| < |was| then was[lo + |data|..] else []
  }

  lemma OverwriteTwice(was: seq<Byte>, lo: nat, d1: seq<Byte>, d2: seq<Byte>)
    requires lo <= |was|
    ensures Overwrite(Overwrite(was, lo, d1), lo + |d1|, d2) == Overwrite(was, lo, d1 + d2)
  {
  }

  /** The bytes below size changed exactly in lo .. lo+|data|, which hold data. */
  ghost predicate BytesWritten(g: Geometry, v: seq<Sector>, cs: seq<nat>, v': seq<Sector>, cs': seq<nat>,
                               size: nat, lo: nat, data: seq<Byte>)
    requires g.csize > 0
  {
    forall p: nat :: p < Max(size, lo + |data|) ==>
      ByteAt(g, v', cs', p) == if lo <= p < lo + |data| then data[p - lo] else ByteAt(g, v, cs, p)
  }

  lemma WrittenContent(g: Geometry, v: seq<Sector>, cs: seq<nat>, v': seq<Sector>, cs': seq<nat>,
                       size: nat, lo: nat, data: seq<Byte>)
    requires g.csize > 0 && lo <= size && BytesWritten(g, v, cs, v', cs', size, lo, data)
    ensures Content(g, v', cs', Max(size, lo + |data|)) == Overwrite(Content(g, v, cs, size), lo, data)
  {
    hide ByteAt;
    var a, b := Content(g, v', cs', Max(size, lo + |data|)), Overwrite(Content(g, v, cs, size), lo, data);
    forall p | 0 <= p < |a| ensures a[p] == b[p] {
    }
  }

  /** Every position below a covered one is covered. */
  lemma CoveredBelow(g: Geometry, cs: seq<nat>, p: nat, q: nat)
    requires g.csize > 0 && p <= q && HasByte(g, cs, q)
    ensures HasByte(g, cs, p)
  {
    IndexMonotone(g, p / SECTOR_SIZE, q / SECTOR_SIZE);
  }

  /** A longer chain puts the bytes already covered in the same places. */
  lemma PrefixKeepsSectors(g: Geometry, cs: seq<nat>, cs': seq<nat>, k: nat)
    requires g.csize > 0 && cs <= cs' && HasSector(g, cs, k)
    ensures HasSector(g, cs', k) && SectorOf(g, cs', k) == SectorOf(g, cs, k)
  {
  }

  /** The sectors of the clusters cs are the same on both volumes. */
  ghost predicate SameOnClusters(g: Geometry, cs: seq<nat>, v: seq<Sector>, v': seq<Sector>) {
    |v'| == |v| && forall s: nat :: s < |v| && InClusters(g, cs, s) ==> v'[s] == v[s]
  }

  lemma SameClustersSameByte(g: Geometry, cs: seq<nat>, cs': seq<nat>, v: seq<Sector>, v': seq<Sector>, p: nat)
    requires GeometryOk(g, |v|) && ClustersInRange(g, cs) && cs <= cs'
    requires SameOnClusters(g, cs, v, v') && HasByte(g, cs, p)
    ensures ByteAt(g, v', cs', p) == ByteAt(g, v, cs, p)
  {
    SectorOfInData(g, |v|, cs, p / SECTOR_SIZE);
    PrefixKeepsSectors(g, cs, cs', p / SECTOR_SIZE);
  }

  /** Equal sectors under the chain, equal content. */
  lemma SameClustersSameContent(g: Geometry, cs: seq<nat>, cs': seq<nat>, v: seq<Sector>, v': seq<Sector>, size: nat)
    requires GeometryOk(g, |v|) && ClustersInRange(g, cs) && cs <= cs'
    requires SameOnClusters(g, cs, v, v') && (size > 0 ==> HasByte(g, cs, size - 1))
    ensures Content(g, v', cs', size) == Content(g, v, cs, size)
  {
    forall p | 0 <= p < size ensures ByteAt(g, v', cs', p) == ByteAt(g, v, cs, p) {
      CoveredBelow(g, cs, p, size - 1);
      SameClustersSameByte(g, cs, cs', v, v', p);
    }
  }

  /** bytes is the concatenation of the sectors data. */
  ghost predicate Flat(bytes: seq<Byte>, data: seq<Sector>) {
    |bytes| == SECTOR_SIZE * |data| && forall i :: 0 <= i < |bytes| ==> bytes[i] == data[i / SECTOR_SIZE][i % SECTOR_SIZE]
  }

  /** Of the file's sectors exactly those from k on changed, to data. */
  ghost predicate SectorsReplaced(g: Geometry, cs: seq<nat>, v: seq<Sector>, v': seq<Sector>, k: nat, data: seq<Sector>)
    requires g.csize > 0 && |v'| == |v|
  {
    forall j: nat :: HasSector(g, cs, j) && SectorOf(g, cs, j) < |v| ==>
      v'[SectorOf(g, cs, j)] == if k <= j < k + |data| then data[j - k] else v[SectorOf(g, cs, j)]
  }

  /** Writing n whole sectors from file sector k on writes their bytes. */
  lemma SectorsWritten(g: Geometry, cs: seq<nat>, v: seq<Sector>, v': seq<Sector>, size: nat, k: nat, data: seq<Sector>, bytes: seq<Byte>)
    requires GeometryOk(g, |v|) && ClustersInRange(g, cs) && |v'| == |v|
    requires Flat(bytes, data)
    requires SECTOR_SIZE * k <= size && (|data| > 0 ==> HasSector(g, cs, k + |data| - 1))
    requires size > 0 ==> HasByte(g, cs, size - 1)
    requires SectorsReplaced(g, cs, v, v', k, data)
    ensures BytesWritten(g, v, cs, v', cs, size, SECTOR_SIZE * k, bytes)
  {
    forall p: nat | p < Max(size, SECTOR_SIZE * k + |bytes|)
      ensures ByteAt(g, v', cs, p) ==
        if SECTOR_SIZE * k <= p < SECTOR_SIZE * k + |bytes| then bytes[p - SECTOR_SIZE * k] else ByteAt(g, v, cs, p)
    {
      SectorsWrittenAt(g, cs, v, v', size, k, data, bytes, p);
    }
  }

  lemma SectorsWrittenAt(g: Geometry, cs: seq<nat>, v: seq<Sector>, v': seq<Sector>, size: nat, k: nat, data: seq<Sector>, bytes: seq<Byte>, p: nat)
    requires GeometryOk(g, |v|) && ClustersInRange(g, cs) && |v'| == |v|
    requires Flat(bytes, data)
    requires SECTOR_SIZE * k <= size && (|data| > 0 ==> HasSector(g, cs, k + |data| - 1))
    requires size > 0 ==> HasByte(g, cs, size - 1)
    requires SectorsReplaced(g, cs, v, v', k, data)
    requires p < Max(size, SECTOR_SIZE * k + |bytes|)
    ensures ByteAt(g, v', cs, p) ==
      if SECTOR_SIZE * k <= p < SECTOR_SIZE * k + |bytes| then bytes[p - SECTOR_SIZE * k] else ByteAt(g, v, cs, p)
  {
    var j := p / SECTOR_SIZE;
    if p < size {
      CoveredBelow(g, cs, p, size - 1);
    } else {
      IndexMonotone(g, j, k + |data| - 1);
    }
    SectorOfInData(g, |v|, cs, j);
    if SECTOR_SIZE * k <= p < SECTOR_SIZE * k + |bytes| {
      DivModIs(p - SECTOR_SIZE * k, SECTOR_SIZE, j - k, p % SECTOR_SIZE);
    }
  }

  /** Patching part of file sector k, over a copy of it that is current below
      size, writes the bytes of the patch. */
  lemma PatchWritten(g: Geometry, cs: seq<nat>, v: seq<Sector>, v': seq<Sector>, size: nat, k: nat, o: nat, data: seq<Byte>, sec: Sector)
    requires GeometryOk(g, |v|) && ClustersInRange(g, cs) && HasSector(g, cs, k) && SectorOf(g, cs, k) < |v|
    requires o + |data| <= SECTOR_SIZE && (size > 0 ==> HasByte(g, cs, size - 1))
    requires forall i: nat :: i < SECTOR_SIZE && SECTOR_SIZE * k + i < size ==> sec[i] == v[SectorOf(g, cs, k)][i]
    requires SECTOR_SIZE * k + o <= size
    requires v' == v[SectorOf(g, cs, k) := Patch(sec, o, data)]
    ensures BytesWritten(g, v, cs, v', cs, size, SECTOR_SIZE * k + o, data)
  {
    var lo := SECTOR_SIZE * k + o;
    forall p: nat | p < Max(size, lo + |data|)
      ensures ByteAt(g, v', cs, p) == if lo <= p < lo + |data| then data[p - lo] else ByteAt(g, v, cs, p)
    {
      PatchWrittenAt(g, cs, v, v', size, k, o, data, sec, p);
    }
  }

  lemma PatchWrittenAt(g: Geometry, cs: seq<nat>, v: seq<Sector>, v': seq<Sector>, size: nat, k: nat, o: nat, data: seq<Byte>, sec: Sector, p: nat)
    requires GeometryOk(g, |v|) && ClustersInRange(g, cs) && HasSector(g, cs, k) && SectorOf(g, cs, k) < |v|
    requires o + |data| <= SECTOR_SIZE && (size > 0 ==> HasByte(g, cs, size - 1))
    requires forall i: nat :: i < SECTOR_SIZE && SECTOR_SIZE * k + i < size ==> sec[i] == v[SectorOf(g, cs, k)][i]
    requires SECTOR_SIZE * k + o <= size
    requires v' == v[SectorOf(g, cs, k) := Patch(sec, o, data)]
    requires p < Max(size, SECTOR_SIZE * k + o + |data|)
    ensures ByteAt(g, v', cs, p) ==
      if SECTOR_SIZE * k + o <= p < SECTOR_SIZE * k + o + |data| then data[p - SECTOR_SIZE * k - o] else ByteAt(g, v, cs, p)
  {
    var j, i := p / SECTOR_SIZE, p % SECTOR_SIZE;
    assert p == SECTOR_SIZE * j + i;
    if p < size {
      CoveredBelow(g, cs, p, size - 1);
    } else {
      assert j == k;
    }
    SectorOfInData(g, |v|, cs, j);
    if j != k && SectorOf(g, cs, j) == SectorOf(g, cs, k) {
      SectorOfInjective(g, cs, j, k);
    }
  }

  /** Consecutive file sectors of one cluster are consecutive on the volume. */
  lemma RunSector(g: Geometry, cs: seq<nat>, k: nat, j: nat)
    requires g.csize > 0 && HasSector(g, cs, k) && SectorInCluster(g, k) + j < g.csize
    ensures HasSector(g, cs, k + j) && SectorOf(g, cs, k + j) == SectorOf(g, cs, k) + j
  {
    NextSectors(g, k, j);
  }

  /** Storing sectors over a run inside one cluster changes exactly the file
      sectors of that run. */
  lemma RunTouches(g: Geometry, cs: seq<nat>, k: nat, n: nat, j: nat)
    requires g.csize > 0 && ClustersInRange(g, cs) && HasSector(g, cs, k) && HasSector(g, cs, j)
    requires SectorInCluster(g, k) + n <= g.csize
    ensures k <= j < k + n ==> SectorOf(g, cs, j) == SectorOf(g, cs, k) + (j - k)
    ensures SectorOf(g, cs, k) <= SectorOf(g, cs, j) < SectorOf(g, cs, k) + n ==> k <= j < k + n
  {
    if k <= j < k + n {
      RunSector(g, cs, k, j - k);
    }
    var d := SectorOf(g, cs, j) - SectorOf(g, cs, k);
    if 0 <= d < n {
      RunSector(g, cs, k, d);
      SectorOfInjective(g, cs, j, k + d);
    }
  }

  /** How much a round moves: a run of whole sectors clipped at the end of the
      cluster, or what is left of the current sector. */
  function RoundSize(g: Geometry, fptr: nat, left: nat): (n: nat)
    requires g.csize > 0 && left > 0
    ensures 1 <= n <= left
    ensures fptr % SECTOR_SIZE == 0 && left >= SECTOR_SIZE ==>
      n % SECTOR_SIZE == 0 && SectorInCluster(g, fptr / SECTOR_SIZE) + n / SECTOR_SIZE <= g.csize
    ensures !(fptr % SECTOR_SIZE == 0 && left >= SECTOR_SIZE) ==> fptr % SECTOR_SIZE + n <= SECTOR_SIZE
  {
    if fptr % SECTOR_SIZE == 0 && left / SECTOR_SIZE > 0 then
      var csect := SectorInCluster(g, fptr / SECTOR_SIZE);
      var cc := if csect + left / SECTOR_SIZE > g.csize then g.csize - csect else left / SECTOR_SIZE;
      SECTOR_SIZE * cc
    else if SECTOR_SIZE - fptr % SECTOR_SIZE > left then left
    else SECTOR_SIZE - fptr % SECTOR_SIZE
  }

  // ----- clusters in bytes -----

  function ClusterBytes(g: Geometry): nat {
    SECTOR_SIZE * g.csize
  }

  /** File position at which the i-th cluster of a chain starts. */
  function ClusterStart(g: Geometry, i: nat): nat {
    if i == 0 then 0 else ClusterStart(g, i - 1) + ClusterBytes(g)
  }

  lemma {:induction false} StartIsProduct(g: Geometry, i: nat)
    ensures ClusterStart(g, i) == SECTOR_SIZE * (i * g.csize)
  {
    if i > 0 {
      StartIsProduct(g, i - 1);
      assert i * g.csize == (i - 1) * g.csize + g.csize;
    }
  }

  /** The x-th byte of cluster i, 0 <= x < the cluster size. */
  lemma ByteOfCluster(g: Geometry, i: nat, x: nat)
    requires g.csize > 0 && x < ClusterBytes(g)
    ensures ClusterIndex(g, (ClusterStart(g, i) + x) / SECTOR_SIZE) == i
    ensures SectorInCluster(g, (ClusterStart(g, i) + x) / SECTOR_SIZE) == x / SECTOR_SIZE
    ensures (ClusterStart(g, i) + x) % SECTOR_SIZE == x % SECTOR_SIZE
  {
    StartIsProduct(g, i);
    var k := i * g.csize + x / SECTOR_SIZE;
    DivModIs(ClusterStart(g, i) + x, SECTOR_SIZE, k, x % SECTOR_SIZE);
    DivModIs(k, g.csize, i, x / SECTOR_SIZE);
  }

  /** Division by the cluster size finds the cluster of a byte. */
  lemma ClusterOfByte(g: Geometry, p: nat)
    requires g.csize > 0
    ensures p / ClusterBytes(g) == ClusterIndex(g, p / SECTOR_SIZE)
    ensures p - p % ClusterBytes(g) == ClusterStart(g, p / ClusterBytes(g))
  {
    var q, r := p / SECTOR_SIZE, p % SECTOR_SIZE;
    var i, x := q / g.csize, q % g.csize;
    assert q == i * g.csize + x;
    assert p == SECTOR_SIZE * q + r;
    assert SECTOR_SIZE * (i * g.csize) == i * ClusterBytes(g);
    DivModIs(p, ClusterBytes(g), i, SECTOR_SIZE * x + r);
    StartIsProduct(g, i);
  }

  /** The code masks with csize - 1 and with the complement of the cluster size
      in bytes less one, in 32 bits; as the cluster size is a power of two these
      are the remainders used here. */
  lemma MasksAreRemainders(g: Geometry, sectors: nat, p: nat)
    requires GeometryOk(g, sectors) && p < U32
    ensures And(p / SECTOR_SIZE, g.csize - 1) == SectorInCluster(g, p / SECTOR_SIZE)
    ensures And(p, U32 - ClusterBytes(g)) == p - p % ClusterBytes(g)
  {
    hide And, Pow2, GeometryOk;
    var k := ClusterSizeShift(g, sectors);
    MaskIsRemainder(p / SECTOR_SIZE, k);
    Pow2Of32();
    ComplementRoundsDown(p, k + 9, 32);
  }

  lemma ClusterSizeShift(g: Geometry, sectors: nat) returns (k: nat)
    requires GeometryOk(g, sectors)
    ensures k <= 7 && g.csize == Pow2(k) && ClusterBytes(g) == Pow2(k + 9)
  {
    k :| g.csize == Pow2(k);
    if k >= 8 {
      assert Pow2(8) == 256;
      Pow2Monotone(8, k);
    }
    Pow2Shift(k, 9);
    assert Pow2(8) == 256;
  }

  lemma Pow2Of32()
    ensures Pow2(32) == U32
  {
    assert Pow2(8) == 0x100;
    assert Pow2(16) == 0x1_0000;
    assert Pow2(24) == 0x100_0000;
  }

  lemma {:induction false} StartMonotone(g: Geometry, i: nat, j: nat)
    requires i <= j
    ensures ClusterStart(g, i) <= ClusterStart(g, j)
  {
    if i < j { StartMonotone(g, i, j - 1); }
  }
}

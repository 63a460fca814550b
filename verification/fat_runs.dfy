/** Whole runs of allocation and release on a volume: what every sequence of
    create_chain, remove_chain (called directly or by f_truncate) and f_getfree
    scans keeps (src/fs/fat32/ff.cpp). */
module FatRuns {
  import opened FatTable
  import opened FatChains
  import opened FatCount

  /** What the file layer asks of the allocator. */
  datatype Op =
    | Create(clst: nat)                // start a chain (0) or follow/stretch one
    | Remove(clst: nat, pclst: nat)    // release a chain, or what follows pclst
    | Scan                             // f_getfree
    | Suggest(last: nat)               // f_open's reuse of a hole

  /** The callers pass an allocated cluster to create_chain, and to remove_chain
      the first cluster of a chain or a link (pclst, clst) of one. */
  ghost predicate Legal(s: Alloc, chains: map<nat, seq<nat>>, op: Op) {
    match op
    case Create(clst) => clst == 0 || (InRange(s.fat, clst) && s.fat[clst] != 0)
    case Remove(clst, pclst) =>
      if pclst == 0 then clst in chains
      else InRange(s.fat, pclst) && InRange(s.fat, clst) && s.fat[pclst] == clst
    case Scan => true
    case Suggest(_) => true
  }

  ghost predicate Step(s: Alloc, op: Op, eoc: nat, packed: bool, s': Alloc) {
    match op
    case Create(clst) => exists ch :: CreateStep(s, clst, eoc, ch, s')
    case Remove(clst, pclst) => exists res :: RemoveStep(s, clst, pclst, eoc, res, s')
    case Scan => ScanStep(s, packed, s')
    case Suggest(last) => s' == s.(last := last)
  }

  /** The invariant of every run: some set of disjoint, acyclic, end-marked
      chains covers exactly the used clusters, and a valid count is exact. */
  ghost predicate Good(s: Alloc, chains: map<nat, seq<nat>>) {
    && |s.fat| >= 3 && s.fat[0] != 0 && s.fat[1] != 0
    && WellFormed(s.fat, chains)
    && Accurate(s)
  }

  // ----- locating clusters in chains -----

  lemma UsedIsMember(fat: Fat, chains: map<nat, seq<nat>>, c: nat) returns (h: nat, i: nat)
    requires WellFormed(fat, chains) && InRange(fat, c) && fat[c] != 0
    ensures h in chains && i < |chains[h]| && chains[h][i] == c
    ensures fat[c] >= 2
    ensures if fat[c] < |fat| then i + 1 < |chains[h]| && chains[h][i + 1] == fat[c] else i + 1 == |chains[h]|
  {
    assert Covered(c, chains);
    h :| h in chains && c in chains[h];
    i :| 0 <= i < |chains[h]| && chains[h][i] == c;
    var cs := chains[h];
    assert IsChain(fat, cs);
    if i + 1 < |cs| {
      assert fat[cs[i]] == cs[i + 1];
      assert InRange(fat, cs[i + 1]);
    }
  }

  /** A well-formed table has no error mark among its clusters. */
  lemma NoErrorMarks(fat: Fat, chains: map<nat, seq<nat>>)
    requires WellFormed(fat, chains)
    ensures forall c: nat :: InRange(fat, c) ==> fat[c] != 1
  {
    forall c: nat | InRange(fat, c) ensures fat[c] != 1 {
      if fat[c] != 0 {
        var h, i := UsedIsMember(fat, chains, c);
      }
    }
  }

  // ----- create_chain -----

  /** What create_chain did to the chains. */
  ghost predicate Allocated(fat: Fat, chains: map<nat, seq<nat>>, clst: nat, ch: Choice, chains': map<nat, seq<nat>>) {
    match ch
    case Answer(_) => chains' == chains
    case Take(c) =>
      InRange(fat, c) && fat[c] == 0 &&
      if clst == 0 then c !in chains && chains' == chains[c := [c]]
      else exists h :: LastOf(chains, h, clst) && chains' == Appended(chains, h, c)
  }

  lemma CreateKeepsGood(s: Alloc, clst: nat, eoc: nat, ch: Choice, s': Alloc, chains: map<nat, seq<nat>>)
    returns (chains': map<nat, seq<nat>>)
    requires CreateStep(s, clst, eoc, ch, s') && eoc >= |s.fat|
    requires Good(s, chains) && Legal(s, chains, Create(clst))
    ensures Good(s', chains') && Allocated(s.fat, chains, clst, ch, chains')
  {
    chains' := chains;
    if ch.Take? {
      var c := ch.cluster;
      TakeFacts(s.fat, s.free, s.last, clst, c);
      TakenCount(s.fat, clst, c, eoc);
      if clst == 0 {
        NewChainWellFormed(s.fat, chains, c, eoc);
        chains' := chains[c := [c]];
      } else {
        var h, i := UsedIsMember(s.fat, chains, clst);
        assert LastOf(chains, h, clst);
        StretchWellFormed(s.fat, chains, h, clst, c, eoc);
        chains' := Appended(chains, h, c);
      }
    }
  }

  lemma TakenCount(fat: Fat, clst: nat, c: nat, eoc: nat)
    requires InRange(fat, c) && fat[c] == 0 && eoc != 0
    requires clst == 0 || (InRange(fat, clst) && fat[clst] != 0)
    ensures FreeCount(Taken(fat, clst, c, eoc)) == FreeCount(fat) - 1
    ensures Taken(fat, clst, c, eoc)[0] == fat[0] && Taken(fat, clst, c, eoc)[1] == fat[1]
  {
    FreeCountAfterUpdate(fat, c, eoc);
    if clst != 0 {
      FreeCountAfterUpdate(fat[c := eoc], clst, c);
    }
  }

  /** Completeness: on a good volume create_chain answers 0 exactly when there is
      nothing to follow and no free cluster, and it never reports an error. */
  lemma CreateIsComplete(s: Alloc, clst: nat, eoc: nat, ch: Choice, s': Alloc, chains: map<nat, seq<nat>>)
    requires CreateStep(s, clst, eoc, ch, s')
    requires Good(s, chains) && Legal(s, chains, Create(clst))
    ensures ch != Answer(1)
    ensures ch == Answer(0) <==> (clst == 0 || s.fat[clst] >= |s.fat|) && FreeCount(s.fat) == 0
    ensures ch.Answer? && ch.code >= 2 <==> clst != 0 && s.fat[clst] < |s.fat|
  {
    NoErrorMarks(s.fat, chains);
    FullMeansNothingFree(s.fat);
    if clst != 0 {
      var h, i := UsedIsMember(s.fat, chains, clst);
    }
    if ch.Take? {
      TakeFacts(s.fat, s.free, s.last, clst, ch.cluster);
    }
  }

  lemma FullMeansNothingFree(fat: Fat)
    requires |fat| >= 3 && forall c: nat :: InRange(fat, c) ==> fat[c] != 1
    ensures FreeCount(fat) == 0 <==> NothingFree(fat)
    ensures FreeCount(fat) >= 0
  {
    UsedBounds(fat, |fat|);
  }

  // ----- remove_chain -----

  /** What remove_chain did to the chains. */
  ghost predicate Released(chains: map<nat, seq<nat>>, clst: nat, pclst: nat, chains': map<nat, seq<nat>>) {
    if pclst == 0 then clst in chains && chains' == chains - {clst}
    else exists h, i: nat ::
      && h in chains && i + 1 < |chains[h]| && chains[h][i] == pclst && chains[h][i + 1] == clst
      && chains' == chains[h := chains[h][..i + 1]]
  }

  lemma RemoveKeepsGood(s: Alloc, clst: nat, pclst: nat, eoc: nat, res: FResult, s': Alloc, chains: map<nat, seq<nat>>)
    returns (chains': map<nat, seq<nat>>)
    requires RemoveStep(s, clst, pclst, eoc, res, s') && eoc >= |s.fat|
    requires Good(s, chains) && Legal(s, chains, Remove(clst, pclst))
    ensures res.FR_OK? && Good(s', chains') && Released(chains, clst, pclst, chains')
  {
    hide Covered;
    hide Release;
    hide UsedBelow;
    hide Covers;
    var fat0 := s.fat;
    if pclst == 0 {
      assert IsChain(s.fat, chains[clst]) && chains[clst][0] == clst;
      ReleaseWellFormed(s.fat, chains, clst);
      ReleaseKeepsReserved(s.fat, clst);
      chains' := chains - {clst};
    } else {
      var h, i := UsedIsMember(s.fat, chains, pclst);
      CutWellFormed(s.fat, chains, h, i, eoc);
      fat0 := s.fat[pclst := eoc];
      ReleaseKeepsReserved(fat0, clst);
      FreeCountAfterUpdate(s.fat, pclst, eoc);
      chains' := chains[h := chains[h][..i + 1]];
    }
    UsedBounds(s'.fat, |s'.fat|);
  }

  lemma {:induction false} ReleaseKeepsReserved(fat: Fat, c: nat)
    requires InRange(fat, c)
    ensures Release(fat, c).1[0] == fat[0] && Release(fat, c).1[1] == fat[1]
    decreases UsedBelow(fat, |fat|)
  {
    ReleaseRound(fat, c);
    if 2 <= fat[c] < |fat| {
      ReleaseKeepsReserved(fat[c := 0], fat[c]);
    }
  }

  // ----- runs -----

  /** Which chains an operation may change, and how. */
  ghost predicate Changed(fat: Fat, chains: map<nat, seq<nat>>, op: Op, chains': map<nat, seq<nat>>) {
    match op
    case Create(clst) => exists ch :: Allocated(fat, chains, clst, ch, chains')
    case Remove(clst, pclst) => Released(chains, clst, pclst, chains')
    case Scan => chains' == chains
    case Suggest(_) => chains' == chains
  }

  lemma StepKeepsGood(s: Alloc, op: Op, eoc: nat, packed: bool, s': Alloc, chains: map<nat, seq<nat>>)
    returns (chains': map<nat, seq<nat>>)
    requires Good(s, chains) && Legal(s, chains, op) && Step(s, op, eoc, packed, s') && eoc >= |s.fat|
    ensures Good(s', chains') && |s'.fat| == |s.fat|
    ensures Changed(s.fat, chains, op, chains')
  {
    match op
    case Create(clst) =>
      var ch :| CreateStep(s, clst, eoc, ch, s');
      chains' := CreateKeepsGood(s, clst, eoc, ch, s', chains);
    case Remove(clst, pclst) =>
      var res :| RemoveStep(s, clst, pclst, eoc, res, s');
      chains' := RemoveKeepsGood(s, clst, pclst, eoc, res, s', chains);
    case Scan => chains' := chains;
    case Suggest(_) => chains' := chains;
  }

  /** A run: each operation was legal for whatever chains the table then had. */
  ghost predicate IsRun(states: seq<Alloc>, ops: seq<Op>, eoc: nat, packed: bool) {
    && |states| == |ops| + 1
    && forall i :: 0 <= i < |ops| ==>
         && Step(states[i], ops[i], eoc, packed, states[i + 1])
         && forall chains :: WellFormed(states[i].fat, chains) ==> Legal(states[i], chains, ops[i])
  }

  /** Every state of every run from a good one is good. */
  lemma {:induction false} RunStaysGood(states: seq<Alloc>, ops: seq<Op>, eoc: nat, packed: bool, chains: map<nat, seq<nat>>, k: nat)
    requires IsRun(states, ops, eoc, packed) && k < |states|
    requires Good(states[0], chains) && eoc >= |states[0].fat|
    ensures |states[k].fat| == |states[0].fat| && exists cs :: Good(states[k], cs)
  {
    if k > 0 {
      RunStaysGood(states, ops, eoc, packed, chains, k - 1);
      var cs :| Good(states[k - 1], cs);
      assert Step(states[k - 1], ops[k - 1], eoc, packed, states[k - 1 + 1]);
      var cs' := StepKeepsGood(states[k - 1], ops[k - 1], eoc, packed, states[k], cs);
    }
  }
}

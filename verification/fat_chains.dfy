/** Cluster chains over the table of entries: what it means for a FAT to be well
    formed, which clusters a walk reaches, and how releasing and allocating
    clusters act on the chains. Pure values only; fat_alloc.dfy ties the code to
    them. Entries are indexed by cluster number, clusters start at 2, an entry
    not below the table length is an end mark, 0 is free, 1 is an internal error. */
module FatChains {
  import opened FatTable

  type Fat = seq<nat>

  predicate InRange(fat: Fat, c: nat) {
    2 <= c < |fat|
  }

  // ----- walking -----

  /** The k-th cluster on the walk from c, as far as the walk stays in range. */
  ghost predicate Follows(fat: Fat, c: nat, k: nat, x: nat)
    decreases k
  {
    if k == 0 then x == c && InRange(fat, c)
    else InRange(fat, x) && exists y: nat :: Follows(fat, c, k - 1, y) && y < |fat| && fat[y] == x
  }

  ghost predicate Reachable(fat: Fat, c: nat, x: nat) {
    exists k: nat :: Follows(fat, c, k, x)
  }

  lemma ReachStart(fat: Fat, c: nat)
    requires InRange(fat, c)
    ensures Reachable(fat, c, c)
  {
    assert Follows(fat, c, 0, c);
  }

  lemma ReachNext(fat: Fat, c: nat, x: nat)
    requires Reachable(fat, c, x) && x < |fat| && InRange(fat, fat[x])
    ensures Reachable(fat, c, fat[x])
  {
    var k: nat :| Follows(fat, c, k, x);
    assert Follows(fat, c, k + 1, fat[x]);
  }

  // ----- releasing -----

  /** Number of entries in use among clusters 2..n-1. */
  function UsedBelow(fat: Fat, n: nat): (u: nat)
    requires n <= |fat|
  {
    if n <= 2 then 0 else UsedBelow(fat, n - 1) + (if fat[n - 1] == 0 then 0 else 1)
  }

  /** Number of free clusters, the quantity free_clst stands for. */
  function FreeCount(fat: Fat): int {
    |fat| - 2 - UsedBelow(fat, |fat|)
  }

  lemma {:induction false} UsedAfterUpdate(fat: Fat, c: nat, val: nat, n: nat)
    requires InRange(fat, c) && n <= |fat|
    ensures UsedBelow(fat[c := val], n) ==
      UsedBelow(fat, n) + if c >= n || (fat[c] == 0) == (val == 0) then 0 else if val == 0 then -1 else 1
  {
    if n > 2 {
      UsedAfterUpdate(fat, c, val, n - 1);
    }
  }

  lemma {:induction false} UsedBounds(fat: Fat, n: nat)
    requires n <= |fat|
    ensures UsedBelow(fat, n) <= if n <= 2 then 0 else n - 2
    ensures (forall c :: 2 <= c < n ==> fat[c] != 0) <==> UsedBelow(fat, n) == if n <= 2 then 0 else n - 2
    ensures forall c :: 2 <= c < n && fat[c] != 0 ==> UsedBelow(fat, n) > 0
  {
    if n > 2 {
      UsedBounds(fat, n - 1);
    }
  }

  lemma FreeCountAfterUpdate(fat: Fat, c: nat, val: nat)
    requires InRange(fat, c)
    ensures FreeCount(fat[c := val]) ==
      FreeCount(fat) + if (fat[c] == 0) == (val == 0) then 0 else if val == 0 then 1 else -1
  {
    UsedAfterUpdate(fat, c, val, |fat|);
  }

  /** remove_chain's loop as a function of the table: walk from c, clear every
      entry on the way, stop at a free entry, an error mark or the end. */
  function Release(fat: Fat, c: nat): (r: (FResult, Fat))
    requires InRange(fat, c)
    ensures |r.1| == |fat|
    decreases UsedBelow(fat, |fat|)
  {
    var nxt := fat[c];
    if nxt == 0 then (FR_OK, fat)
    else if nxt == 1 then (FR_INT_ERR, fat)
    else
      UsedAfterUpdate(fat, c, 0, |fat|);
      if nxt < |fat| then Release(fat[c := 0], nxt) else (FR_OK, fat[c := 0])
  }

  /** One round of the walk: its effect on the result and on the counts. */
  lemma ReleaseRound(fat: Fat, c: nat)
    requires InRange(fat, c)
    ensures fat[c] == 0 ==> Release(fat, c) == (FR_OK, fat)
    ensures fat[c] == 1 ==> Release(fat, c) == (FR_INT_ERR, fat)
    ensures fat[c] >= |fat| ==> Release(fat, c) == (FR_OK, fat[c := 0])
    ensures 2 <= fat[c] < |fat| ==> Release(fat, c) == Release(fat[c := 0], fat[c])
    ensures fat[c] != 0 ==> FreeCount(fat[c := 0]) == FreeCount(fat) + 1 && UsedBelow(fat[c := 0], |fat|) == UsedBelow(fat, |fat|) - 1
  {
    UsedAfterUpdate(fat, c, 0, |fat|);
  }

  /** Reachability from c splits into c itself and what its successor reaches
      once c has been cleared. */
  lemma {:induction false} FollowsAfterClear(fat: Fat, c: nat, k: nat, x: nat)
    requires InRange(fat, c) && InRange(fat, fat[c]) && Follows(fat, c, k, x)
    ensures x == c || Reachable(fat[c := 0], fat[c], x)
    decreases k
  {
    var fat1 := fat[c := 0];
    if k > 0 {
      var y: nat :| Follows(fat, c, k - 1, y) && y < |fat| && fat[y] == x;
      FollowsAfterClear(fat, c, k - 1, y);
      if y == c {
        ReachStart(fat1, fat[c]);
      } else {
        ReachNext(fat1, fat[c], y);
      }
    }
  }

  lemma {:induction false} FollowsBeforeClear(fat: Fat, c: nat, k: nat, x: nat)
    requires InRange(fat, c) && InRange(fat, fat[c]) && Follows(fat[c := 0], fat[c], k, x)
    ensures Follows(fat, c, k + 1, x)
    decreases k
  {
    var fat1 := fat[c := 0];
    if k == 0 {
      assert Follows(fat, c, 0, c);
    } else {
      var y: nat :| Follows(fat1, fat[c], k - 1, y) && y < |fat| && fat1[y] == x;
      FollowsBeforeClear(fat, c, k - 1, y);
    }
  }

  lemma ReachableSplit(fat: Fat, c: nat, x: nat)
    requires InRange(fat, c) && InRange(fat, fat[c])
    ensures Reachable(fat, c, x) <==> x == c || Reachable(fat[c := 0], fat[c], x)
  {
    ReachStart(fat, c);
    if Reachable(fat, c, x) {
      var k: nat :| Follows(fat, c, k, x);
      FollowsAfterClear(fat, c, k, x);
    }
    if Reachable(fat[c := 0], fat[c], x) {
      var k: nat :| Follows(fat[c := 0], fat[c], k, x);
      FollowsBeforeClear(fat, c, k, x);
    }
  }

  lemma ReachableDeadEnd(fat: Fat, c: nat, x: nat)
    requires InRange(fat, c) && !InRange(fat, fat[c])
    ensures Reachable(fat, c, x) <==> x == c
  {
    ReachStart(fat, c);
    if Reachable(fat, c, x) {
      var k: nat :| Follows(fat, c, k, x);
      DeadEnd(fat, c, k, x);
    }
  }

  lemma {:induction false} DeadEnd(fat: Fat, c: nat, k: nat, x: nat)
    requires InRange(fat, c) && !InRange(fat, fat[c]) && Follows(fat, c, k, x)
    ensures x == c
    decreases k
  {
    if k > 0 {
      var y: nat :| Follows(fat, c, k - 1, y) && y < |fat| && fat[y] == x;
      DeadEnd(fat, c, k - 1, y);
    }
  }

  /** On any table whatever, cyclic ones included: releasing from c succeeds
      exactly when no reachable entry is the error mark, and then it clears the
      reachable clusters and nothing else. */
  lemma {:induction false} ReleaseFreesReachable(fat: Fat, c: nat)
    requires InRange(fat, c)
    ensures Release(fat, c).0.FR_OK? <==> forall x: nat :: Reachable(fat, c, x) && x < |fat| ==> fat[x] != 1
    ensures Release(fat, c).0.FR_OK? ==>
      forall x :: 0 <= x < |fat| ==> Release(fat, c).1[x] == if Reachable(fat, c, x) then 0 else fat[x]
    decreases UsedBelow(fat, |fat|)
  {
    var nxt := fat[c];
    if InRange(fat, nxt) {
      UsedAfterUpdate(fat, c, 0, |fat|);
      ReleaseFreesReachable(fat[c := 0], nxt);
      forall x: nat ensures Reachable(fat, c, x) <==> x == c || Reachable(fat[c := 0], nxt, x) {
        ReachableSplit(fat, c, x);
      }
    } else {
      forall x: nat ensures Reachable(fat, c, x) <==> x == c {
        ReachableDeadEnd(fat, c, x);
      }
    }
  }

  // ----- chains -----

  /** cs is a complete chain: linked in order, end-marked, without repetition. */
  ghost predicate IsChain(fat: Fat, cs: seq<nat>) {
    && |cs| > 0
    && (forall i :: 0 <= i < |cs| ==> InRange(fat, cs[i]))
    && (forall i, j :: 0 <= i && i + 1 == j && j < |cs| ==> fat[cs[i]] == cs[j])
    && fat[cs[|cs| - 1]] >= |fat|
    && (forall i, j :: 0 <= i < j < |cs| ==> cs[i] != cs[j])
  }

  ghost predicate Keyed(fat: Fat, chains: map<nat, seq<nat>>) {
    forall h :: h in chains ==> IsChain(fat, chains[h]) && chains[h][0] == h
  }

  ghost predicate Disjoint(chains: map<nat, seq<nat>>) {
    forall h, k, x :: h in chains && k in chains && x in chains[h] && x in chains[k] ==> h == k
  }

  ghost predicate Covered(c: nat, chains: map<nat, seq<nat>>) {
    exists h :: h in chains && c in chains[h]
  }

  ghost predicate Covers(fat: Fat, chains: map<nat, seq<nat>>) {
    forall c: nat :: InRange(fat, c) && fat[c] != 0 ==> Covered(c, chains)
  }

  /** The allocated clusters are exactly the members of the given chains, keyed
      by their first cluster, and no cluster is in two of them. */
  ghost predicate WellFormed(fat: Fat, chains: map<nat, seq<nat>>) {
    Keyed(fat, chains) && Disjoint(chains) && Covers(fat, chains)
  }

  lemma MemberIsUsed(fat: Fat, cs: seq<nat>, x: nat)
    requires IsChain(fat, cs) && x in cs
    ensures InRange(fat, x) && fat[x] >= 2
  {
    var i :| 0 <= i < |cs| && cs[i] == x;
    if i < |cs| - 1 {
      assert InRange(fat, cs[i + 1]);
    }
  }

  /** A chain survives any change to the entries of other clusters. */
  lemma ChainUntouched(fat: Fat, fat': Fat, cs: seq<nat>)
    requires IsChain(fat, cs) && |fat'| == |fat|
    requires forall x :: x in cs ==> fat'[x] == fat[x]
    ensures IsChain(fat', cs)
  {
    assert forall i :: 0 <= i < |cs| ==> cs[i] in cs;
  }

  // ----- replacing one chain -----

  function OldChain(chains: map<nat, seq<nat>>, h: nat): seq<nat> {
    if h in chains then chains[h] else []
  }

  function Replaced(chains: map<nat, seq<nat>>, h: nat, cs: seq<nat>): map<nat, seq<nat>> {
    if cs == [] then chains - {h} else chains[h := cs]
  }

  /** The table went from one in which the chain keyed h was old to one in which
      it is cs: cs took only clusters of old and free ones, what it dropped is
      free now, and no other entry changed. */
  ghost predicate ChainReplaced(fat: Fat, fat': Fat, h: nat, old_: seq<nat>, cs: seq<nat>) {
    && |fat'| == |fat|
    && (cs != [] ==> IsChain(fat', cs) && cs[0] == h)
    && (forall x :: x in cs && x !in old_ ==> InRange(fat, x) && fat[x] == 0)
    && (forall x: nat :: x < |fat| && x !in cs ==> fat'[x] == if x in old_ then 0 else fat[x])
  }

  lemma OthersDisjointFrom(fat: Fat, chains: map<nat, seq<nat>>, h: nat, cs: seq<nat>, k: nat)
    requires Keyed(fat, chains) && Disjoint(chains) && k in chains && k != h
    requires forall x :: x in cs && x !in OldChain(chains, h) ==> InRange(fat, x) && fat[x] == 0
    ensures forall x :: x in chains[k] ==> x !in cs && x !in OldChain(chains, h)
  {
    forall x | x in chains[k] ensures x !in cs && x !in OldChain(chains, h) {
      MemberIsUsed(fat, chains[k], x);
    }
  }

  lemma ReplacedKeyed(fat: Fat, fat': Fat, chains: map<nat, seq<nat>>, h: nat, cs: seq<nat>)
    requires Keyed(fat, chains) && Disjoint(chains)
    requires ChainReplaced(fat, fat', h, OldChain(chains, h), cs)
    ensures Keyed(fat', Replaced(chains, h, cs)) && Disjoint(Replaced(chains, h, cs))
  {
    hide IsChain;
    forall k | k in chains && k != h
      ensures IsChain(fat', chains[k]) && forall x :: x in chains[k] ==> x !in cs
    {
      OthersDisjointFrom(fat, chains, h, cs, k);
      forall x | x in chains[k] ensures InRange(fat, x) { MemberIsUsed(fat, chains[k], x); }
      ChainUntouched(fat, fat', chains[k]);
    }
  }

  lemma ReplacedCovers(fat: Fat, fat': Fat, chains: map<nat, seq<nat>>, h: nat, cs: seq<nat>)
    requires Covers(fat, chains)
    requires ChainReplaced(fat, fat', h, OldChain(chains, h), cs)
    ensures Covers(fat', Replaced(chains, h, cs))
  {
    hide IsChain;
    var chains' := Replaced(chains, h, cs);
    forall c: nat | InRange(fat', c) && fat'[c] != 0 ensures Covered(c, chains') {
      if c in cs {
        assert chains'[h] == cs;
      } else {
        assert Covered(c, chains);
        var k :| k in chains && c in chains[k];
        assert k != h && k in chains' && chains'[k] == chains[k];
      }
    }
  }

  /** Replacing one chain keeps the table well formed. */
  lemma ReplacedWellFormed(fat: Fat, fat': Fat, chains: map<nat, seq<nat>>, h: nat, cs: seq<nat>)
    requires WellFormed(fat, chains)
    requires ChainReplaced(fat, fat', h, OldChain(chains, h), cs)
    ensures WellFormed(fat', Replaced(chains, h, cs))
  {
    ReplacedKeyed(fat, fat', chains, h, cs);
    ReplacedCovers(fat, fat', chains, h, cs);
  }

  /** The entry of a chain's cluster tells whether the chain goes on, and where. */
  lemma ChainLink(fat: Fat, cs: seq<nat>, i: nat)
    requires IsChain(fat, cs) && i < |cs|
    ensures InRange(fat, cs[i]) && fat[cs[i]] >= 2
    ensures if fat[cs[i]] < |fat| then i + 1 < |cs| && cs[i + 1] == fat[cs[i]] else i + 1 == |cs|
    ensures forall x :: x in cs ==> InRange(fat, x)
  {
    MemberIsUsed(fat, cs, cs[i]);
    if i + 1 < |cs| { assert fat[cs[i]] == cs[i + 1] && InRange(fat, cs[i + 1]); }
  }

  /** A chain is determined by its first cluster. */
  lemma {:induction false} ChainsUnique(fat: Fat, a: seq<nat>, b: seq<nat>)
    requires IsChain(fat, a) && IsChain(fat, b) && a[0] == b[0]
    ensures a == b
    decreases |a|
  {
    ChainLink(fat, a, 0);
    ChainLink(fat, b, 0);
    if |a| == 1 || |b| == 1 {
      assert a == [a[0]] && b == [b[0]];
    } else {
      SuffixIsChain(fat, a, 1);
      SuffixIsChain(fat, b, 1);
      ChainsUnique(fat, a[1..], b[1..]);
      assert a == [a[0]] + a[1..] && b == [b[0]] + b[1..];
    }
  }

  /** The chain an operation started from is the one the table has under the
      file's first cluster: the file's own chain when it has one, and none when
      it has none yet, since a newly taken cluster is nobody's first. */
  lemma StartsFromOldChain(fat: Fat, fat': Fat, chains: map<nat, seq<nat>>, head: nat, cs: seq<nat>, cs': seq<nat>)
    requires WellFormed(fat, chains) && ChainReplaced(fat, fat', head, cs, cs')
    requires if cs != [] then IsChain(fat, cs) && cs[0] == head && head in chains else cs' == [] ==> head == 0
    ensures OldChain(chains, head) == cs
  {
    if cs != [] {
      ChainsUnique(fat, chains[head], cs);
    } else if head in chains {
      assert chains[head][0] == head;
      MemberIsUsed(fat, chains[head], head);
    }
  }

  // ----- the four ways the code replaces a chain -----

  /** Starting a chain with a free cluster. */
  lemma NewChainWellFormed(fat: Fat, chains: map<nat, seq<nat>>, ncl: nat, eoc: nat)
    requires WellFormed(fat, chains) && InRange(fat, ncl) && fat[ncl] == 0 && eoc >= |fat|
    ensures ncl !in chains
    ensures WellFormed(fat[ncl := eoc], chains[ncl := [ncl]])
  {
    if ncl in chains {
      assert chains[ncl][0] == ncl;
      MemberIsUsed(fat, chains[ncl], ncl);
    }
    ReplacedWellFormed(fat, fat[ncl := eoc], chains, ncl, [ncl]);
  }

  lemma StretchReplaces(fat: Fat, cs: seq<nat>, ncl: nat, eoc: nat)
    requires IsChain(fat, cs) && InRange(fat, ncl) && fat[ncl] == 0 && eoc >= |fat|
    ensures ChainReplaced(fat, fat[ncl := eoc][cs[|cs| - 1] := ncl], cs[0], cs, cs + [ncl])
  {
    var fat', cs' := fat[ncl := eoc][cs[|cs| - 1] := ncl], cs + [ncl];
    if ncl in cs { MemberIsUsed(fat, cs, ncl); }
    assert forall i :: 0 <= i < |cs| ==> cs'[i] == cs[i] && cs[i] in cs;
    assert IsChain(fat', cs');
    assert forall x :: x in cs' <==> x in cs || x == ncl;
  }

  /** The table after linking the free cluster ncl behind last. */
  function Linked(fat: Fat, last: nat, ncl: nat, eoc: nat): (r: Fat)
    requires last < |fat| && ncl < |fat|
    ensures |r| == |fat|
  {
    fat[ncl := eoc][last := ncl]
  }

  function Appended(chains: map<nat, seq<nat>>, h: nat, ncl: nat): map<nat, seq<nat>> {
    chains[h := OldChain(chains, h) + [ncl]]
  }

  ghost predicate LastOf(chains: map<nat, seq<nat>>, h: nat, last: nat) {
    h in chains && |chains[h]| > 0 && chains[h][|chains[h]| - 1] == last
  }

  /** Appending a free cluster to the chain keyed h that ends in last. */
  lemma StretchWellFormed(fat: Fat, chains: map<nat, seq<nat>>, h: nat, last: nat, ncl: nat, eoc: nat)
    requires last < |fat| && InRange(fat, ncl) && fat[ncl] == 0 && eoc >= |fat|
    requires LastOf(chains, h, last) && WellFormed(fat, chains)
    ensures WellFormed(Linked(fat, last, ncl, eoc), Appended(chains, h, ncl))
  {
    var cs := chains[h];
    assert IsChain(fat, cs) && cs[0] == h;
    StretchReplaces(fat, cs, ncl, eoc);
    ReplacedWellFormed(fat, Linked(fat, last, ncl, eoc), chains, h, cs + [ncl]);
  }

  /** The walk over a tail of a chain clears that tail and nothing else. */
  lemma {:induction false} ReleaseTail(fat: Fat, cs: seq<nat>)
    requires IsChain(fat, cs)
    ensures Release(fat, cs[0]).0.FR_OK?
    ensures forall x :: 0 <= x < |fat| ==> Release(fat, cs[0]).1[x] == if x in cs then 0 else fat[x]
    decreases |cs|
  {
    var fat1 := fat[cs[0] := 0];
    MemberIsUsed(fat, cs, cs[0]);
    if |cs| > 1 {
      var rest := cs[1..];
      assert cs == [cs[0]] + rest;
      SuffixIsChain(fat, cs, 1);
      assert cs[0] !in rest;
      ChainUntouched(fat, fat1, rest);
      ReleaseTail(fat1, rest);
    }
  }

  lemma SuffixIsChain(fat: Fat, cs: seq<nat>, i: nat)
    requires IsChain(fat, cs) && i < |cs|
    ensures IsChain(fat, cs[i..])
    ensures forall x :: x in cs[..i] ==> x !in cs[i..]
  {
  }

  /** Releasing a whole chain. */
  lemma ReleaseWellFormed(fat: Fat, chains: map<nat, seq<nat>>, h: nat)
    requires WellFormed(fat, chains) && h in chains && InRange(fat, h)
    ensures Release(fat, h).0.FR_OK? && WellFormed(Release(fat, h).1, chains - {h})
    ensures forall x :: 0 <= x < |fat| ==> Release(fat, h).1[x] == if x in chains[h] then 0 else fat[x]
  {
    ReleaseTail(fat, chains[h]);
    ReplacedWellFormed(fat, Release(fat, h).1, chains, h, []);
  }

  lemma PrefixIsChain(fat: Fat, fat': Fat, cs: seq<nat>, i: nat)
    requires IsChain(fat, cs) && i < |cs| && |fat'| == |fat|
    requires fat'[cs[i]] >= |fat|
    requires forall j :: 0 <= j < i ==> fat'[cs[j]] == fat[cs[j]]
    ensures IsChain(fat', cs[..i + 1])
  {
  }

  /** Cutting behind position i first and then releasing the tail. */
  lemma CutReleases(fat: Fat, cs: seq<nat>, i: nat, eoc: nat)
    requires IsChain(fat, cs) && i + 1 < |cs| && eoc >= |fat|
    ensures InRange(fat, cs[i]) && InRange(fat[cs[i] := eoc], cs[i + 1])
    ensures var r := Release(fat[cs[i] := eoc], cs[i + 1]);
      r.0.FR_OK? && forall x: nat :: x < |fat| ==>
        r.1[x] == if x in cs[i + 1..] then 0 else if x == cs[i] then eoc else fat[x]
  {
    var tail := cs[i + 1..];
    var fat0 := fat[cs[i] := eoc];
    SuffixIsChain(fat, cs, i + 1);
    assert cs[i] in cs[..i + 1];
    ChainUntouched(fat, fat0, tail);
    ReleaseTail(fat0, tail);
  }

  lemma SplitMembership(cs: seq<nat>, i: nat)
    requires i + 1 < |cs|
    ensures forall x :: x in cs <==> x in cs[..i + 1] || x in cs[i + 1..]
    ensures forall x :: x in cs[..i + 1] <==> x in cs[..i] || x == cs[i]
  {
    assert cs == cs[..i + 1] + cs[i + 1..];
    assert cs[..i + 1] == cs[..i] + [cs[i]];
  }

  lemma CutReplaces(fat: Fat, cs: seq<nat>, i: nat, eoc: nat)
    requires IsChain(fat, cs) && i + 1 < |cs| && eoc >= |fat|
    ensures InRange(fat, cs[i]) && InRange(fat[cs[i] := eoc], cs[i + 1])
    ensures Release(fat[cs[i] := eoc], cs[i + 1]).0.FR_OK?
    ensures ChainReplaced(fat, Release(fat[cs[i] := eoc], cs[i + 1]).1, cs[0], cs, cs[..i + 1])
  {
    CutReleases(fat, cs, i, eoc);
    SuffixIsChain(fat, cs, i + 1);
    SplitMembership(cs, i);
    var fat' := Release(fat[cs[i] := eoc], cs[i + 1]).1;
    forall j | 0 <= j < i ensures fat'[cs[j]] == fat[cs[j]] {
      assert cs[j] in cs[..i + 1];
    }
    PrefixIsChain(fat, fat', cs, i);
  }

  /** Cutting the chain keyed h after position i and releasing what followed. */
  lemma CutWellFormed(fat: Fat, chains: map<nat, seq<nat>>, h: nat, i: nat, eoc: nat)
    requires WellFormed(fat, chains) && h in chains && i + 1 < |chains[h]| && eoc >= |fat|
    ensures InRange(fat, chains[h][i]) && InRange(fat[chains[h][i] := eoc], chains[h][i + 1])
    ensures Release(fat[chains[h][i] := eoc], chains[h][i + 1]).0.FR_OK?
    ensures WellFormed(Release(fat[chains[h][i] := eoc], chains[h][i + 1]).1, chains[h := chains[h][..i + 1]])
  {
    var cs := chains[h];
    CutReplaces(fat, cs, i, eoc);
    ReplacedWellFormed(fat, Release(fat[cs[i] := eoc], cs[i + 1]).1, chains, h, cs[..i + 1]);
  }

  // ----- looking for a free cluster -----

  /** How many probes after scl the wrapping search reaches c. */
  function Dist(n: nat, scl: nat, c: nat): int {
    if c > scl then c - scl else n - 2 + c - scl
  }

  /** c is the first entry in probing order that is free or an error mark. */
  ghost predicate FirstHit(fat: Fat, scl: nat, c: nat) {
    && InRange(fat, c) && fat[c] < 2
    && forall d: nat :: InRange(fat, d) && Dist(|fat|, scl, d) < Dist(|fat|, scl, c) ==> fat[d] >= 2
  }

  ghost predicate NothingFree(fat: Fat) {
    forall d: nat :: InRange(fat, d) ==> fat[d] >= 2
  }

  /** Where create_chain starts to search: at the cluster suggested by the last
      allocation when that is usable, else at the top or at the chain's end. */
  function SearchStart(n: nat, last: nat, clst: nat): nat {
    if clst == 0 then (if last == 0 || last >= n then 1 else last)
    else if 2 <= last < n then last else clst
  }

  function Neighbour(n: nat, clst: nat): nat {
    if clst + 1 >= n then 2 else clst + 1
  }

  /** The entry create_chain settles on: the one next to the chain's end if that
      is free or faulty, else the first in probing order. */
  ghost predicate Chosen(fat: Fat, last: nat, clst: nat, c: nat)
    requires |fat| >= 3
  {
    if clst != 0 && fat[Neighbour(|fat|, clst)] < 2 then c == Neighbour(|fat|, clst)
    else FirstHit(fat, SearchStart(|fat|, last, clst), c)
  }

  /** None of the first k probes from scl met a free or faulty entry. */
  ghost predicate Probed(fat: Fat, scl: nat, k: nat) {
    forall d: nat :: InRange(fat, d) && Dist(|fat|, scl, d) <= k ==> fat[d] >= 2
  }

  lemma NoProbe(fat: Fat, scl: nat)
    requires scl < |fat|
    ensures Probed(fat, scl, 0)
  {
  }

  /** The cluster the k-th probe looks at. */
  function Probe(n: nat, scl: nat, k: nat): int {
    if scl + k < n then scl + k else scl + k - (n - 2)
  }

  lemma ProbeOutcome(fat: Fat, scl: nat, k: nat)
    requires 1 <= scl < |fat| && 1 <= k <= |fat| - 2 && |fat| >= 3 && Probed(fat, scl, k - 1)
    ensures var c := Probe(|fat|, scl, k);
      && 2 <= c < |fat| && (c == scl ==> k == |fat| - 2)
      && (fat[c] == 0 ==> SearchResult(fat, scl, c))
      && (fat[c] == 1 ==> SearchResult(fat, scl, 1))
      && (fat[c] >= 2 ==> Probed(fat, scl, k))
      && (fat[c] >= 2 && k == |fat| - 2 ==> SearchResult(fat, scl, 0))
  {
    var c := Probe(|fat|, scl, k);
    assert Dist(|fat|, scl, c) == k;
    assert forall d: nat :: InRange(fat, d) && Dist(|fat|, scl, d) == k ==> d == c;
    assert forall d: nat :: InRange(fat, d) ==> Dist(|fat|, scl, d) <= |fat| - 2;
    if fat[c] < 2 {
      assert FirstHit(fat, scl, c);
    }
  }

  /** What the wrapping search from scl reports: the first free cluster, 1 when
      an error mark comes first, 0 when there is neither. */
  ghost predicate SearchResult(fat: Fat, scl: nat, r: nat) {
    if r == 0 then NothingFree(fat)
    else if r == 1 then exists c: nat :: FirstHit(fat, scl, c) && fat[c] == 1
    else FirstHit(fat, scl, r) && fat[r] == 0
  }

  /** What create_chain decides: an answer without allocating, or a cluster. */
  datatype Choice = Answer(code: nat) | Take(cluster: nat)

  ghost predicate Decides(fat: Fat, free: nat, last: nat, clst: nat, ch: Choice)
    requires |fat| >= 3
  {
    if clst != 0 && (!InRange(fat, clst) || fat[clst] < 2) then ch == Answer(1)
    else if clst != 0 && fat[clst] < |fat| then ch == Answer(fat[clst])
    else if free == 0 || NothingFree(fat) then ch == Answer(0)
    else if ch.Answer? then ch.code == 1 && exists c: nat :: Chosen(fat, last, clst, c) && fat[c] == 1
    else Chosen(fat, last, clst, ch.cluster) && fat[ch.cluster] == 0
  }

  lemma SearchDecides(fat: Fat, free: nat, last: nat, clst: nat, r: nat)
    requires |fat| >= 3 && free != 0
    requires clst != 0 ==> InRange(fat, clst) && fat[clst] >= |fat| && fat[Neighbour(|fat|, clst)] >= 2
    requires SearchResult(fat, SearchStart(|fat|, last, clst), r)
    ensures Decides(fat, free, last, clst, if r < 2 then Answer(r) else Take(r))
  {
    if r == 1 {
      var c: nat :| FirstHit(fat, SearchStart(|fat|, last, clst), c) && fat[c] == 1;
      assert Chosen(fat, last, clst, c);
    }
  }

  lemma NeighbourDecides(fat: Fat, free: nat, last: nat, clst: nat)
    requires |fat| >= 3 && free != 0
    requires InRange(fat, clst) && fat[clst] >= |fat| && fat[Neighbour(|fat|, clst)] < 2
    ensures Decides(fat, free, last, clst,
              if fat[Neighbour(|fat|, clst)] == 1 then Answer(1) else Take(Neighbour(|fat|, clst)))
  {
    assert Chosen(fat, last, clst, Neighbour(|fat|, clst));
  }

  /** The decision is a function of the table, the two hints and clst. */
  lemma DecisionIsUnique(fat: Fat, free: nat, last: nat, clst: nat, ch: Choice, ch': Choice)
    requires |fat| >= 3
    requires Decides(fat, free, last, clst, ch) && Decides(fat, free, last, clst, ch')
    ensures ch == ch'
  {
  }

  /** What the two failure answers mean. */
  lemma AnswerFacts(fat: Fat, free: nat, last: nat, clst: nat, code: nat)
    requires |fat| >= 3 && Decides(fat, free, last, clst, Answer(code)) && (clst != 0 ==> InRange(fat, clst) && fat[clst] >= 2)
    ensures code == 0 ==> free == 0 || NothingFree(fat)
    ensures code == 1 ==> exists c: nat :: InRange(fat, c) && fat[c] == 1
  {
    if code == 1 && !(clst != 0 && fat[clst] < |fat|) {
      var c: nat :| Chosen(fat, last, clst, c) && fat[c] == 1;
      assert InRange(fat, c);
    }
  }

  /** A decision to take a cluster names a free one, behind a chain's end. */
  lemma TakeFacts(fat: Fat, free: nat, last: nat, clst: nat, c: nat)
    requires |fat| >= 3 && Decides(fat, free, last, clst, Take(c))
    ensures InRange(fat, c) && fat[c] == 0 && free != 0
    ensures clst != 0 ==> InRange(fat, clst) && fat[clst] >= |fat|
  {
  }

  /** The table after the cluster c has been taken, for a new chain or behind clst. */
  function Taken(fat: Fat, clst: nat, c: nat, eoc: nat): (r: Fat)
    requires c < |fat| && clst < |fat|
    ensures |r| == |fat|
  {
    if clst == 0 then fat[c := eoc] else Linked(fat, clst, c, eoc)
  }

  // ----- the allocation state and the steps the code makes on it -----

  /** The table together with the two hints the volume keeps about it. */
  datatype Alloc = Alloc(fat: Fat, free: nat, last: nat)

  /** free is a count only while it does not exceed the cluster count; a larger
      value means "unknown". While it is a count it is the right one. */
  ghost predicate Accurate(s: Alloc) {
    s.free <= |s.fat| - 2 ==> s.free == FreeCount(s.fat)
  }

  /** create_chain(clst), deciding ch. */
  ghost predicate CreateStep(s: Alloc, clst: nat, eoc: nat, ch: Choice, s': Alloc)
  {
    && |s.fat| >= 3
    && Decides(s.fat, s.free, s.last, clst, ch)
    && match ch
       case Answer(_) => s' == s
       case Take(c) =>
         && c < |s.fat| && clst < |s.fat|
         && s'.fat == Taken(s.fat, clst, c, eoc)
         && s'.last == c
         && s'.free == if 0 < s.free <= |s.fat| - 2 then s.free - 1 else s.free
  }

  /** free after k more clusters became free, one increment at a time. */
  function Recount(free: nat, clusters: int, k: nat): nat {
    if free >= clusters then free
    else if free + k < clusters then free + k else clusters
  }

  /** The table remove_chain starts its walk on. */
  function CutAt(fat: Fat, pclst: nat, eoc: nat): (r: Fat)
    requires pclst < |fat|
    ensures |r| == |fat|
  {
    if pclst == 0 then fat else fat[pclst := eoc]
  }

  /** remove_chain(clst, pclst), returning res. */
  ghost predicate RemoveStep(s: Alloc, clst: nat, pclst: nat, eoc: nat, res: FResult, s': Alloc) {
    if !InRange(s.fat, clst) || !(pclst == 0 || InRange(s.fat, pclst)) then
      res.FR_INT_ERR? && s' == s
    else
      var fat0 := CutAt(s.fat, pclst, eoc);
      && (res, s'.fat) == Release(fat0, clst)
      && s'.last == s.last
      && FreeCount(s'.fat) >= FreeCount(fat0)
      && s'.free == Recount(s.free, |s.fat| - 2, FreeCount(s'.fat) - FreeCount(fat0))
  }
}

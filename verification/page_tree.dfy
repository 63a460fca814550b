/** Page tables in physical frames as a radix tree, and what one entry write does
    to every translation (the walk of section 4.5 of the Intel SDM, volume 3A,
    for 4-level paging with 4-KByte pages). */
module PageTree {
  import opened PageEntries

  type Table = seq<nat>
  type Memory = map<nat, Table>  // the frames, each seen as 512 entries
  type Path = seq<nat>

  datatype Frame = None | Some(frame: nat)

  function Zeros(): Table {
    seq(512, _ => 0)
  }

  /** The entry at index of the table in frame t; an absent one if there is none. */
  function EntryAt(mem: Memory, t: nat, index: nat): nat {
    if t in mem && index < |mem[t]| then mem[t][index] else 0
  }

  function Decode(entry: nat): Frame {
    if FlagRead(entry, PRESENT) then Some(Address(entry)) else None
  }

  /** The frame that a path of indices leads to: a table for fewer than four
      indices, a page for four. */
  function Walk(mem: Memory, root: nat, path: Path): Frame {
    if path == [] then Some(root)
    else
      var up := Walk(mem, root, path[..|path| - 1]);
      if up.None? then None else Decode(EntryAt(mem, up.frame, path[|path| - 1]))
  }

  ghost predicate IsTable(mem: Memory, root: nat, path: Path, t: nat) {
    |path| <= 3 && Walk(mem, root, path) == Some(t)
  }

  /** The tables are frames of memory and marked as used, and no two paths lead
      to the same table. */
  ghost predicate IsTree(mem: Memory, root: nat, marked: set<nat>) {
    && (forall p: Path, t: nat :: IsTable(mem, root, p, t) ==> t in marked && t in mem && |mem[t]| == 512)
    && (forall p: Path, q: Path, t: nat :: IsTable(mem, root, p, t) && IsTable(mem, root, q, t) ==> p == q)
  }

  function Written(mem: Memory, t: nat, index: nat, entry: nat): Memory
    requires t in mem && index < |mem[t]|
  {
    var table: Table := mem[t][index := entry];
    mem[t := table]
  }

  predicate Prefix(p: Path, q: Path) {
    |p| <= |q| && q[..|p|] == p
  }

  lemma PrefixUp(p: Path, q: Path)
    requires Prefix(p, q) && p != q
    ensures |q| > 0 && Prefix(p, q[..|q| - 1])
  {
    assert q[..|q| - 1][..|p|] == q[..|p|];
  }

  lemma NotPrefixUp(p: Path, q: Path)
    requires |q| > 0 && !Prefix(p, q)
    ensures !Prefix(p, q[..|q| - 1])
  {
    if |p| < |q| { assert q[..|q| - 1][..|p|] == q[..|p|]; }
  }

  /** A write into one entry is seen only by walks through that entry. */
  lemma {:induction false} WriteElsewhere(mem: Memory, root: nat, marked: set<nat>, p: Path, t: nat, index: nat, entry: nat, q: Path)
    requires IsTree(mem, root, marked) && IsTable(mem, root, p, t) && t in mem && index < |mem[t]|
    requires |q| <= 4 && !Prefix(p + [index], q)
    ensures Walk(Written(mem, t, index, entry), root, q) == Walk(mem, root, q)
  {
    hide IsTree;
    if q != [] {
      var up, i := q[..|q| - 1], q[|q| - 1];
      NotPrefixUp(p + [index], q);
      WriteElsewhere(mem, root, marked, p, t, index, entry, up);
      var u := Walk(mem, root, up);
      if u == Some(t) {
        SameTable(mem, root, marked, p, up, t);
        assert q == up + [i];
      }
    }
  }

  lemma SameTable(mem: Memory, root: nat, marked: set<nat>, p: Path, q: Path, t: nat)
    requires IsTree(mem, root, marked) && IsTable(mem, root, p, t) && |q| <= 3 && Walk(mem, root, q) == Some(t)
    ensures p == q
  {
    assert IsTable(mem, root, q, t);
  }

  lemma WalkStep(mem: Memory, root: nat, p: Path, index: nat)
    ensures Walk(mem, root, p + [index]) ==
            if Walk(mem, root, p).None? then None else Decode(EntryAt(mem, Walk(mem, root, p).frame, index))
  {
    assert (p + [index])[..|p|] == p;
  }

  /** And the walk to that entry sees exactly what was written. */
  lemma WriteHere(mem: Memory, root: nat, marked: set<nat>, p: Path, t: nat, index: nat, entry: nat)
    requires IsTree(mem, root, marked) && IsTable(mem, root, p, t) && t in mem && index < |mem[t]|
    ensures Walk(Written(mem, t, index, entry), root, p) == Some(t)
    ensures Walk(Written(mem, t, index, entry), root, p + [index]) == Decode(entry)
  {
    WriteElsewhere(mem, root, marked, p, t, index, entry, p);
    WalkStep(Written(mem, t, index, entry), root, p, index);
  }

  /** Clearing a frame that holds no table changes no walk. */
  lemma {:induction false} ClearElsewhere(mem: Memory, root: nat, marked: set<nat>, f: nat, q: Path)
    requires IsTree(mem, root, marked) && f !in marked && |q| <= 4
    ensures Walk(mem[f := Zeros()], root, q) == Walk(mem, root, q)
  {
    hide IsTree;
    if q != [] {
      ClearElsewhere(mem, root, marked, f, q[..|q| - 1]);
      var u := Walk(mem, root, q[..|q| - 1]);
      if u == Some(f) { TableMarked(mem, root, marked, q[..|q| - 1], f); }
    }
  }

  lemma TableMarked(mem: Memory, root: nat, marked: set<nat>, p: Path, t: nat)
    requires IsTree(mem, root, marked) && IsTable(mem, root, p, t)
    ensures t in marked && t in mem && |mem[t]| == 512
  {
  }

  /** Clearing a fresh frame leaves the tree a tree; marking it does no harm. */
  lemma ClearKeepsTree(mem: Memory, root: nat, marked: set<nat>, f: nat)
    requires IsTree(mem, root, marked) && f !in marked
    ensures IsTree(mem[f := Zeros()], root, marked)
  {
    var mem' := mem[f := Zeros()];
    forall p: Path, t: nat | IsTable(mem', root, p, t) ensures IsTable(mem, root, p, t) {
      ClearElsewhere(mem, root, marked, f, p);
    }
  }

  /** Hooking a cleared frame into an absent entry: one new table, whose own
      entries are all absent, so no other walk of up to four indices changes. */
  lemma LinkWalks(mem: Memory, root: nat, marked: set<nat>, p: Path, t: nat, index: nat, entry: nat, f: nat, q: Path)
    requires IsTree(mem, root, marked) && IsTable(mem, root, p, t) && t in mem && index < |mem[t]|
    requires Walk(mem, root, p + [index]).None? && Decode(entry) == Some(f)
    requires f in mem && mem[f] == Zeros() && f != t && |q| <= 4
    ensures Walk(Written(mem, t, index, entry), root, q) == if q == p + [index] then Some(f) else Walk(mem, root, q)
    decreases |q|
  {
    var mem' := Written(mem, t, index, entry);
    if !Prefix(p + [index], q) {
      WriteElsewhere(mem, root, marked, p, t, index, entry, q);
    } else if q == p + [index] {
      WriteHere(mem, root, marked, p, t, index, entry);
    } else {
      PrefixUp(p + [index], q);
      LinkWalks(mem, root, marked, p, t, index, entry, f, q[..|q| - 1]);
      AbsentBelow(mem, root, p + [index], q);
      AbsentBelow(mem, root, p + [index], q[..|q| - 1]);
    }
  }

  /** Nothing is reached below an absent entry. */
  lemma {:induction false} AbsentBelow(mem: Memory, root: nat, p: Path, q: Path)
    requires Prefix(p, q) && Walk(mem, root, p).None?
    ensures Walk(mem, root, q).None?
  {
    if p == q {
    } else {
      PrefixUp(p, q);
      AbsentBelow(mem, root, p, q[..|q| - 1]);
    }
  }

  lemma LinkKeepsTree(mem: Memory, root: nat, marked: set<nat>, p: Path, t: nat, index: nat, entry: nat, f: nat)
    requires IsTree(mem, root, marked) && IsTable(mem, root, p, t) && t in mem && index < |mem[t]|
    requires Walk(mem, root, p + [index]).None? && Decode(entry) == Some(f)
    requires f in mem && mem[f] == Zeros() && f !in marked
    ensures IsTree(Written(mem, t, index, entry), root, marked + {f})
  {
    hide Decode;
    TableMarked(mem, root, marked, p, t);
    var mem' := Written(mem, t, index, entry);
    forall q: Path, u: nat | IsTable(mem', root, q, u)
      ensures if q == p + [index] then u == f else IsTable(mem, root, q, u)
      ensures u in marked + {f} && u in mem' && |mem'[u]| == 512
    {
      LinkWalks(mem, root, marked, p, t, index, entry, f, q);
      if q != p + [index] { TableMarked(mem, root, marked, q, u); }
    }
  }

  /** Rewriting an entry of a last-level table: exactly that page's translation. */
  lemma LeafWalks(mem: Memory, root: nat, marked: set<nat>, p: Path, t: nat, index: nat, entry: nat, q: Path)
    requires IsTree(mem, root, marked) && IsTable(mem, root, p, t) && |p| == 3 && t in mem && index < |mem[t]|
    requires |q| <= 4
    ensures Walk(Written(mem, t, index, entry), root, q) == if q == p + [index] then Decode(entry) else Walk(mem, root, q)
  {
    if q == p + [index] {
      WriteHere(mem, root, marked, p, t, index, entry);
    } else {
      if |q| == 4 { assert q[..4] == q; }
      WriteElsewhere(mem, root, marked, p, t, index, entry, q);
    }
  }

  lemma LeafKeepsTree(mem: Memory, root: nat, marked: set<nat>, p: Path, t: nat, index: nat, entry: nat)
    requires IsTree(mem, root, marked) && IsTable(mem, root, p, t) && |p| == 3 && t in mem && index < |mem[t]|
    ensures IsTree(Written(mem, t, index, entry), root, marked)
  {
    var mem' := Written(mem, t, index, entry);
    forall q: Path, u: nat | IsTable(mem', root, q, u)
      ensures IsTable(mem, root, q, u) && u in marked && u in mem' && |mem'[u]| == 512
    {
      LeafWalks(mem, root, marked, p, t, index, entry, q);
      TableMarked(mem, root, marked, q, u);
    }
  }

  /** A zeroed root on its own is a tree that maps nothing. */
  lemma {:induction false} EmptyRoot(mem: Memory, root: nat, q: Path)
    requires root in mem && mem[root] == Zeros() && q != []
    ensures Walk(mem, root, q).None?
  {
    if |q| > 1 { EmptyRoot(mem, root, q[..|q| - 1]); }
  }

  lemma EmptyRootIsTree(mem: Memory, root: nat, marked: set<nat>)
    requires root in mem && mem[root] == Zeros() && root in marked
    ensures IsTree(mem, root, marked)
  {
    forall p: Path, t: nat | IsTable(mem, root, p, t) ensures p == [] && t == root {
      if p != [] { EmptyRoot(mem, root, p); }
    }
  }
}

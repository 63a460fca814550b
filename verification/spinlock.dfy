/** The spinlock as interleaved atomic instructions of any number of CPUs
    (src/scheduling/scheduler/atomic.asm:11-40,
    src/include/scheduling/scheduler/atomic.h:10-11). */
module Spinlock {
  type Word = s: seq<bool> | |s| == 64 witness seq(64, _ => false)

  /** lock bts: the bit as it was (the carry flag) and the word with it set. */
  function Bts(w: Word, bit: nat): (r: (bool, Word))
    requires bit < 64
  {
    (w[bit], w[bit := true])
  }

  /** lock btr: the bit as it was and the word with it cleared. */
  function Btr(w: Word, bit: nat): (r: (bool, Word))
    requires bit < 64
  {
    (w[bit], w[bit := false])
  }

  /** What atomic_lock and atomic_unlock return: whether carry was clear. */
  function CfResult(carry: bool): bool {
    !carry
  }

  /** Where a CPU is: outside; at the bts or the bt of atomic_spinlock; at the bts
      of atomic_lock, which the acquire macro adds; inside. */
  datatype Pc = Outside | Acquire | Spin | Again | Inside

  datatype State = State(word: Word, pcs: seq<Pc>)

  /** One instruction of CPU i. A CPU outside or inside may also do other things,
      which leave the lock alone. */
  function Step(s: State, bit: nat, i: nat): State
    requires bit < 64 && i < |s.pcs|
  {
    match s.pcs[i]
    case Outside => s.(pcs := s.pcs[i := Acquire])
    case Acquire =>
      var (carry, word) := Bts(s.word, bit);
      State(word, s.pcs[i := if carry then Spin else Again])
    case Spin => s.(pcs := s.pcs[i := if s.word[bit] then Spin else Acquire])
    case Again =>
      var (_, word) := Bts(s.word, bit);
      State(word, s.pcs[i := Inside])
    case Inside =>
      var (_, word) := Btr(s.word, bit);
      State(word, s.pcs[i := Outside])
  }

  predicate Holds(pc: Pc) {
    pc == Again || pc == Inside
  }

  /** The CPU that is past acquire, if one is. */
  ghost predicate Holder(s: State, h: nat) {
    h < |s.pcs| && Holds(s.pcs[h])
  }

  ghost predicate Exclusive(s: State, bit: nat)
    requires bit < 64
  {
    && (forall i: nat, j: nat :: Holder(s, i) && Holder(s, j) ==> i == j)
    && (s.word[bit] <==> exists h: nat :: Holder(s, h))
  }

  ghost predicate Initial(s: State, bit: nat)
    requires bit < 64
  {
    !s.word[bit] && forall i :: 0 <= i < |s.pcs| ==> s.pcs[i] == Outside
  }

  lemma StepKeepsExclusive(s: State, bit: nat, i: nat)
    requires bit < 64 && i < |s.pcs| && Exclusive(s, bit)
    ensures Exclusive(Step(s, bit, i), bit)
  {
    var s' := Step(s, bit, i);
    assert forall j: nat :: j != i ==> (Holder(s', j) <==> Holder(s, j));
    if Holds(s'.pcs[i]) {
      assert Holder(s', i);
      if Holds(s.pcs[i]) { assert Holder(s, i); }
    } else if Holds(s.pcs[i]) {
      assert Holder(s, i);
    } else if s.word[bit] {
      var h: nat :| Holder(s, h);
      assert Holder(s', h);
    }
  }

  predicate Names(schedule: seq<nat>, cpus: nat) {
    forall k :: 0 <= k < |schedule| ==> schedule[k] < cpus
  }

  /** The states of an interleaving, one CPU index per instruction. */
  ghost function Run(s: State, bit: nat, schedule: seq<nat>): State
    requires bit < 64 && Names(schedule, |s.pcs|)
    ensures |Run(s, bit, schedule).pcs| == |s.pcs|
    decreases |schedule|
  {
    if schedule == [] then s
    else
      var prev := Run(s, bit, schedule[..|schedule| - 1]);
      Step(prev, bit, schedule[|schedule| - 1])
  }

  /** Over all interleavings at most one CPU is past acquire, the bit is set exactly
      when one is, and the other bits of the word stay as they are. */
  lemma {:induction false} MutualExclusion(s: State, bit: nat, schedule: seq<nat>)
    requires bit < 64 && Initial(s, bit) && Names(schedule, |s.pcs|)
    ensures var e := Run(s, bit, schedule);
      && (forall i: nat, j: nat :: Holder(e, i) && Holder(e, j) ==> i == j)
      && (e.word[bit] <==> exists h: nat :: Holder(e, h))
      && (forall b :: 0 <= b < 64 && b != bit ==> e.word[b] == s.word[b])
    decreases |schedule|
  {
    if schedule != [] {
      var front, i := schedule[..|schedule| - 1], schedule[|schedule| - 1];
      MutualExclusion(s, bit, front);
      StepKeepsExclusive(Run(s, bit, front), bit, i);
    }
  }

  /** The second bts of the macro finds the bit set, changes nothing and so returns
      false; the unlocking btr returns false as well. */
  lemma RedundantBts(s: State, bit: nat, i: nat)
    requires bit < 64 && i < |s.pcs| && Exclusive(s, bit) && Holds(s.pcs[i])
    ensures !CfResult(Bts(s.word, bit).0) && Bts(s.word, bit).1 == s.word
    ensures !CfResult(Btr(s.word, bit).0)
  {
    assert Holder(s, i);
  }

  /** A free lock is taken by the first CPU whose bts comes next; a waiting CPU is
      at most two instructions of its own away from it. */
  lemma FreeLockIsTaken(s: State, bit: nat, i: nat)
    requires bit < 64 && i < |s.pcs| && Exclusive(s, bit) && (s.pcs[i] == Acquire || s.pcs[i] == Spin)
    requires forall h: nat :: !Holder(s, h)
    ensures s.pcs[i] == Acquire ==> Holder(Step(s, bit, i), i)
    ensures s.pcs[i] == Spin ==> Holder(Step(Step(s, bit, i), bit, i), i)
  {
    assert !s.word[bit];
  }
}

/** What one timer interrupt does to a CPU's queue and the tasks
    (src/scheduling/scheduler/scheduler.cpp:225-330), as a function, and what that
    means for the order in which tasks run. scheduler.dfy proves the code does it. */
module SchedModel {
  import opened SchedQueue

  /** The 18 registers that schedule saves and restores. */
  datatype Context = Context(rax: nat, rbx: nat, rcx: nat, rdx: nat, r8: nat, r9: nat, r10: nat, r11: nat, r12: nat,
    r13: nat, r14: nat, r15: nat, rip: nat, rsp: nat, rbp: nat, rsi: nat, rdi: nat, rflags: nat)

  datatype Task = Task(regs: Context, stack: nat, firstSched: bool, killMe: bool, lock: bool,
    isElf: bool, offset: nat, pageCount: nat)

  type Tasks = map<nat, Task>

  ghost predicate Known(tasks: Tasks, q: seq<nat>) {
    forall t :: t in q ==> t in tasks
  }

  ghost predicate Distinct(q: seq<nat>) {
    forall i, j :: 0 <= i < j < |q| ==> q[i] != q[j]
  }

  predicate Runs(tasks: Tasks, t: nat)
    requires t in tasks
  {
    !tasks[t].killMe && !tasks[t].lock
  }

  /** The position of the first task that is neither killed nor locked. */
  function FirstRunnable(tasks: Tasks, q: seq<nat>): (k: nat)
    requires Known(tasks, q)
    ensures k <= |q| && (k < |q| ==> Runs(tasks, q[k]))
    ensures forall i :: 0 <= i < k ==> !Runs(tasks, q[i])
  {
    if q == [] || Runs(tasks, q[0]) then 0 else 1 + FirstRunnable(tasks, q[1..])
  }

  lemma FirstRunnableIs(tasks: Tasks, q: seq<nat>, k: nat)
    requires Known(tasks, q) && k <= |q| && (k < |q| ==> Runs(tasks, q[k]))
    requires forall i :: 0 <= i < k ==> !Runs(tasks, q[i])
    ensures FirstRunnable(tasks, q) == k
  {
    var f := FirstRunnable(tasks, q);
  }

  /** Some task can run; on every CPU that is the idle task. */
  ghost predicate Ready(tasks: Tasks, q: seq<nat>) {
    Known(tasks, q) && exists t :: t in q && Runs(tasks, t)
  }

  lemma ReadyHasRunnable(tasks: Tasks, q: seq<nat>)
    requires Ready(tasks, q)
    ensures FirstRunnable(tasks, q) < |q|
  {
    var t :| t in q && Runs(tasks, t);
    var i :| 0 <= i < |q| && q[i] == t;
  }

  /** The loop at the label next: killed heads are dropped, locked ones go to the end. */
  function Settle(tasks: Tasks, q: seq<nat>): (r: seq<nat>)
    requires Known(tasks, q) && FirstRunnable(tasks, q) < |q|
    ensures r != [] && r[0] == q[FirstRunnable(tasks, q)]
    decreases FirstRunnable(tasks, q)
  {
    var t := q[0];
    if tasks[t].killMe then
      assert q[1..] != [];
      Settle(tasks, q[1..])
    else if tasks[t].lock then
      LockedOneRotates(tasks, q);
      Settle(tasks, Rotate(q))
    else q
  }

  lemma LockedOneRotates(tasks: Tasks, q: seq<nat>)
    requires Known(tasks, q) && 0 < FirstRunnable(tasks, q) < |q|
    ensures Known(tasks, Rotate(q)) && FirstRunnable(tasks, Rotate(q)) == FirstRunnable(tasks, q) - 1
    ensures Rotate(q)[FirstRunnable(tasks, q) - 1] == q[FirstRunnable(tasks, q)]
  {
    FirstRunnableIs(tasks, Rotate(q), FirstRunnable(tasks, q) - 1);
  }

  /** The killed tasks of a queue, in order. */
  function Killed(tasks: Tasks, q: seq<nat>): seq<nat>
    requires Known(tasks, q)
  {
    if q == [] then [] else (if tasks[q[0]].killMe then [q[0]] else []) + Killed(tasks, q[1..])
  }

  /** The tasks of a queue that are locked but not killed, in order. */
  function Held(tasks: Tasks, q: seq<nat>): seq<nat>
    requires Known(tasks, q)
  {
    if q == [] then [] else (if tasks[q[0]].killMe then [] else [q[0]]) + Held(tasks, q[1..])
  }

  /** The loop in closed form: the first runnable task comes to the front, the
      locked ones before it go to the end in order, the killed ones are gone. */
  lemma {:induction false} SettleIs(tasks: Tasks, q: seq<nat>)
    requires Known(tasks, q) && FirstRunnable(tasks, q) < |q|
    ensures var k := FirstRunnable(tasks, q); Settle(tasks, q) == q[k..] + Held(tasks, q[..k])
    decreases FirstRunnable(tasks, q)
  {
    hide Held, Rotate, Settle, FirstRunnable;
    var k := FirstRunnable(tasks, q);
    SettleUnfolds(tasks, q);
    if k == 0 {
      assert q[..0] == [] && q[0..] == q;
      HeldNone(tasks);
    } else if tasks[q[0]].killMe {
      KilledFirst(tasks, q, k);
      SettleIs(tasks, q[1..]);
    } else {
      LockedFirst(tasks, q, k);
      SettleIs(tasks, Rotate(q));
      assert (q[k..] + [q[0]]) + Held(tasks, q[1..][..k - 1]) == q[k..] + ([q[0]] + Held(tasks, q[1..][..k - 1]));
    }
  }

  lemma SettleUnfolds(tasks: Tasks, q: seq<nat>)
    requires Known(tasks, q) && FirstRunnable(tasks, q) < |q|
    ensures FirstRunnable(tasks, q) == 0 ==> Settle(tasks, q) == q
    ensures FirstRunnable(tasks, q) > 0 ==> !Runs(tasks, q[0])
    ensures FirstRunnable(tasks, q) > 0 && tasks[q[0]].killMe ==>
      Known(tasks, q[1..]) && FirstRunnable(tasks, q[1..]) == FirstRunnable(tasks, q) - 1 && Settle(tasks, q) == Settle(tasks, q[1..])
    ensures FirstRunnable(tasks, q) > 0 && !tasks[q[0]].killMe ==>
      Known(tasks, Rotate(q)) && FirstRunnable(tasks, Rotate(q)) == FirstRunnable(tasks, q) - 1
      && Settle(tasks, q) == Settle(tasks, Rotate(q))
  {
    if FirstRunnable(tasks, q) > 0 { LockedOneRotates(tasks, q); }
  }

  lemma HeldNone(tasks: Tasks)
    ensures Held(tasks, []) == []
  {
  }

  lemma KilledFirst(tasks: Tasks, q: seq<nat>, k: nat)
    requires Known(tasks, q) && 0 < k < |q| && tasks[q[0]].killMe
    ensures q[1..][k - 1..] == q[k..]
    ensures Known(tasks, q[1..][..k - 1]) && Known(tasks, q[..k])
    ensures Held(tasks, q[..k]) == Held(tasks, q[1..][..k - 1])
  {
    assert q[..k][1..] == q[1..][..k - 1];
  }

  lemma LockedFirst(tasks: Tasks, q: seq<nat>, k: nat)
    requires Known(tasks, q) && 0 < k < |q| && !tasks[q[0]].killMe
    ensures Rotate(q)[k - 1..] == q[k..] + [q[0]] && Rotate(q)[..k - 1] == q[1..][..k - 1]
    ensures Known(tasks, q[1..][..k - 1]) && Known(tasks, q[..k])
    ensures Held(tasks, q[..k]) == [q[0]] + Held(tasks, q[1..][..k - 1])
  {
    assert q[..k][1..] == q[1..][..k - 1];
  }

  // ----- one timer interrupt -----

  /** The head is the interrupted task, unless it has never run. */
  function Saved(tasks: Tasks, t: nat, frame: Context): Tasks
    requires t in tasks
  {
    if tasks[t].firstSched then tasks else tasks[t := tasks[t].(regs := frame)]
  }

  /** The killed tasks that the loop meets and reaps. */
  function Reaped(tasks: Tasks, q: seq<nat>): seq<nat>
    requires Known(tasks, q)
  {
    Killed(tasks, q[..FirstRunnable(tasks, q)])
  }

  datatype Switch = Switch(tasks: Tasks, queue: seq<nat>, next: nat, loaded: Context, reaped: seq<nat>)

  ghost function Switched(tasks: Tasks, q: seq<nat>, frame: Context): Switch
    requires q != [] && Ready(tasks, q)
  {
    SavedIsReady(tasks, q, frame);
    var t1, q1 := Saved(tasks, q[0], frame), Rotate(q);
    ReadyHasRunnable(t1, q1);
    var q2 := Settle(t1, q1);
    SettleKnown(t1, q1);
    var rest := t1 - (set t | t in Reaped(t1, q1));
    Switch(rest[q2[0] := t1[q2[0]].(firstSched := false)], q2, q2[0], t1[q2[0]].regs, Reaped(t1, q1))
  }

  lemma SavedIsReady(tasks: Tasks, q: seq<nat>, frame: Context)
    requires q != [] && Ready(tasks, q)
    ensures Ready(Saved(tasks, q[0], frame), Rotate(q))
  {
    var t :| t in q && Runs(tasks, t);
    RotateMembers(q);
    assert t in Rotate(q) && Runs(Saved(tasks, q[0], frame), t);
  }

  lemma RotateMembers(q: seq<nat>)
    requires q != []
    ensures forall t :: t in Rotate(q) <==> t in q
  {
    assert q == [q[0]] + q[1..];
  }

  lemma SettleKnown(tasks: Tasks, q: seq<nat>)
    requires Known(tasks, q) && FirstRunnable(tasks, q) < |q|
    ensures Known(tasks, Settle(tasks, q))
  {
    SettleMembers(tasks, q);
  }

  lemma {:induction false} KilledMembers(tasks: Tasks, q: seq<nat>)
    requires Known(tasks, q)
    ensures forall t :: t in Killed(tasks, q) <==> t in q && tasks[t].killMe
    ensures forall t :: t in Held(tasks, q) <==> t in q && !tasks[t].killMe
  {
    if q != [] {
      KilledMembers(tasks, q[1..]);
      assert q == [q[0]] + q[1..];
    }
  }

  lemma {:induction false} HeldDistinct(tasks: Tasks, q: seq<nat>)
    requires Known(tasks, q) && Distinct(q)
    ensures Distinct(Held(tasks, q)) && Distinct(Killed(tasks, q))
  {
    if q != [] {
      HeldDistinct(tasks, q[1..]);
      KilledMembers(tasks, q[1..]);
    }
  }

  /** No live task is lost, none appears twice; exactly the killed ones that the
      loop met are gone. */
  lemma SettleMembers(tasks: Tasks, q: seq<nat>)
    requires Known(tasks, q) && FirstRunnable(tasks, q) < |q|
    ensures forall t :: t in Settle(tasks, q) ==> t in q
    ensures forall t :: t in q ==> t in Settle(tasks, q) || t in Reaped(tasks, q)
    ensures forall t :: t in Reaped(tasks, q) ==> t in q && tasks[t].killMe
    ensures Distinct(q) ==> Distinct(Settle(tasks, q)) && Distinct(Reaped(tasks, q))
    ensures Distinct(q) ==> forall t :: t in Reaped(tasks, q) ==> t !in Settle(tasks, q)
  {
    hide Settle, Killed, Held, FirstRunnable;
    var k := FirstRunnable(tasks, q);
    SettleIs(tasks, q);
    CutMembers(tasks, q, k);
    if Distinct(q) { CutDistinct(tasks, q, k); }
  }

  lemma CutMembers(tasks: Tasks, q: seq<nat>, k: nat)
    requires Known(tasks, q) && k <= |q|
    ensures Known(tasks, q[..k])
    ensures forall t :: t in q[k..] + Held(tasks, q[..k]) ==> t in q
    ensures forall t :: t in q ==> t in q[k..] + Held(tasks, q[..k]) || t in Killed(tasks, q[..k])
    ensures forall t :: t in Killed(tasks, q[..k]) ==> t in q && tasks[t].killMe
  {
    KilledMembers(tasks, q[..k]);
    assert q == q[..k] + q[k..];
  }

  lemma CutDistinct(tasks: Tasks, q: seq<nat>, k: nat)
    requires Known(tasks, q) && k <= |q| && Distinct(q)
    ensures Known(tasks, q[..k])
    ensures Distinct(q[k..] + Held(tasks, q[..k])) && Distinct(Killed(tasks, q[..k]))
    ensures forall t :: t in Killed(tasks, q[..k]) ==> t !in q[k..] + Held(tasks, q[..k])
  {
    PartsApart(q, k);
    KilledMembers(tasks, q[..k]);
    HeldDistinct(tasks, q[..k]);
    DistinctAppend(q[k..], Held(tasks, q[..k]));
  }

  lemma DistinctAppend(a: seq<nat>, b: seq<nat>)
    requires Distinct(a) && Distinct(b) && forall t :: t in b ==> t !in a
    ensures Distinct(a + b)
  {
    var c := a + b;
    forall i, j | 0 <= i < j < |c| ensures c[i] != c[j] {
      if i < |a| <= j { assert c[j] == b[j - |a|] && c[j] in b; }
    }
  }

  lemma PartsApart(q: seq<nat>, k: nat)
    requires Distinct(q) && k <= |q|
    ensures Distinct(q[..k]) && Distinct(q[k..])
    ensures forall t :: t in q[..k] ==> t !in q[k..]
  {
  }

  // ----- how long a task waits -----

  lemma SwitchedIs(tasks: Tasks, q: seq<nat>, frame: Context)
    requires q != [] && Ready(tasks, q)
    ensures var s, t1, q1 := Switched(tasks, q, frame), Saved(tasks, q[0], frame), Rotate(q);
      && Known(t1, q1)
      && var k := FirstRunnable(t1, q1);
         && k < |q1| && s.next == q1[k] && s.queue == q1[k..] + Held(t1, q1[..k])
         && s.loaded == t1[q1[k]].regs
  {
    hide Held;
    SavedIsReady(tasks, q, frame);
    ReadyHasRunnable(Saved(tasks, q[0], frame), Rotate(q));
    SettleIs(Saved(tasks, q[0], frame), Rotate(q));
  }

  /** Whoever stands at place i of the rotated queue and can run is not overtaken. */
  lemma NotOvertaken(tasks: Tasks, q: seq<nat>, frame: Context, i: nat)
    requires q != [] && Ready(tasks, q) && i < |q| && Rotate(q)[i] in tasks && Runs(tasks, Rotate(q)[i])
    ensures var s, t := Switched(tasks, q, frame), Rotate(q)[i];
      s.next == t || exists j: nat :: 0 < j <= i && j < |s.queue| && s.queue[j] == t
  {
    hide Held, Switched, Rotate, Killed;
    SwitchedIs(tasks, q, frame);
    var s, t1, q1 := Switched(tasks, q, frame), Saved(tasks, q[0], frame), Rotate(q);
    assert Runs(t1, q1[i]);
    var k := FirstRunnable(t1, q1);
    if k < i { assert s.queue[i - k] == q1[i]; }
  }

  /** A task that can run moves at least one place towards the front with every
      interrupt of its CPU, or runs. */
  lemma WaitsLess(tasks: Tasks, q: seq<nat>, frame: Context, i: nat)
    requires q != [] && Ready(tasks, q) && 0 < i < |q| && q[i] in tasks && Runs(tasks, q[i])
    ensures var s := Switched(tasks, q, frame);
      s.next == q[i] || exists j: nat :: 0 < j < i && j < |s.queue| && s.queue[j] == q[i]
  {
    hide Switched, Settle, FirstRunnable, Held;
    assert Rotate(q)[i - 1] == q[i];
    NotOvertaken(tasks, q, frame, i - 1);
  }

  /** The task that ran comes to the end of its queue, or runs again. */
  lemma RanGoesLast(tasks: Tasks, q: seq<nat>, frame: Context)
    requires q != [] && Ready(tasks, q) && q[0] in tasks && Runs(tasks, q[0])
    ensures var s := Switched(tasks, q, frame);
      s.next == q[0] || exists j: nat :: 0 < j < |q| && j < |s.queue| && s.queue[j] == q[0]
  {
    assert Rotate(q)[|q| - 1] == q[0];
    NotOvertaken(tasks, q, frame, |q| - 1);
  }

  /** A killed task moves towards the front as well, until it is reaped there. */
  lemma KilledAdvances(tasks: Tasks, q: seq<nat>, frame: Context, i: nat)
    requires q != [] && Ready(tasks, q) && Distinct(q) && 0 < i < |q| && q[i] in tasks && tasks[q[i]].killMe
    ensures var s := Switched(tasks, q, frame);
      q[i] !in s.queue || exists j: nat :: 0 < j < i && j < |s.queue| && s.queue[j] == q[i]
  {
    hide Switched, Settle, Held, Killed;
    SwitchedIs(tasks, q, frame);
    var s, t1, q1 := Switched(tasks, q, frame), Saved(tasks, q[0], frame), Rotate(q);
    var k := FirstRunnable(t1, q1);
    assert q1[i - 1] == q[i] && !Runs(t1, q1[i - 1]);
    if i - 1 < k {
      RotateDistinctly(q);
      CutMembers(t1, q1, k);
      CutDistinct(t1, q1, k);
      KilledMembers(t1, q1[..k]);
      assert q1[..k][i - 1] == q[i];
    } else {
      assert s.queue[i - 1 - k] == q[i];
    }
  }

  lemma RotateDistinctly(q: seq<nat>)
    requires Distinct(q)
    ensures Distinct(Rotate(q))
  {
  }
}

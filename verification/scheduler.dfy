/** The scheduler's code (src/scheduling/scheduler/scheduler.cpp): schedule is
    proved to be the switch of sched_model.dfy, new_task, task_exit and init_sched
    to be the other events of sched_runs.dfy. task_queue_lock is spinlock.dfy's
    subject; here each call runs under it. */
module Scheduling {
  import opened SchedQueue
  import opened SchedModel
  import opened SchedRuns

  const TASK_STACK_PAGES := 64
  const CPUS := 256

  /** The register frame of an interrupt. */
  class Registers {
    var cr4: nat
    var cr3: nat
    var cr2: nat
    var cr0: nat
    var r15: nat
    var r14: nat
    var r13: nat
    var r12: nat
    var r11: nat
    var r10: nat
    var r9: nat
    var r8: nat
    var rdi: nat
    var rsi: nat
    var rbp: nat
    var rbx: nat
    var rdx: nat
    var rcx: nat
    var rax: nat
    var interruptNumber: nat
    var errorCode: nat
    var rip: nat
    var cs: nat
    var rflags: nat
    var rsp: nat

    function Saved(): Context
      reads this
    {
      Context(rax, rbx, rcx, rdx, r8, r9, r10, r11, r12, r13, r14, r15, rip, rsp, rbp, rsi, rdi, rflags)
    }

    /** Loads 18 registers and leaves the other seven alone. */
    method Load(c: Context)
      modifies `rax, `rbx, `rcx, `rdx, `r8, `r9, `r10, `r11, `r12, `r13, `r14, `r15, `rip, `rsp, `rbp, `rsi, `rdi, `rflags
      ensures Saved() == c
    {
      LoadGeneral(c);
      LoadRest(c);
    }

    method LoadGeneral(c: Context)
      modifies `rax, `rbx, `rcx, `rdx, `r8, `r9, `r10, `r11, `r12, `r13, `r14, `r15
      ensures rax == c.rax && rbx == c.rbx && rcx == c.rcx && rdx == c.rdx && r8 == c.r8 && r9 == c.r9
      ensures r10 == c.r10 && r11 == c.r11 && r12 == c.r12 && r13 == c.r13 && r14 == c.r14 && r15 == c.r15
    {
      rax := c.rax;
      rbx := c.rbx;
      rcx := c.rcx;
      rdx := c.rdx;
      r8 := c.r8;
      r9 := c.r9;
      r10 := c.r10;
      r11 := c.r11;
      r12 := c.r12;
      r13 := c.r13;
      r14 := c.r14;
      r15 := c.r15;
    }

    method LoadRest(c: Context)
      modifies `rip, `rsp, `rbp, `rsi, `rdi, `rflags
      ensures rip == c.rip && rsp == c.rsp && rbp == c.rbp && rsi == c.rsi && rdi == c.rdi && rflags == c.rflags
    {
      rip := c.rip;
      rsp := c.rsp;
      rbp := c.rbp;
      rsi := c.rsi;
      rdi := c.rdi;
      rflags := c.rflags;
    }
  }

  datatype PageRun = PageRun(address: nat, count: nat)

  /** The frames a task gives back when it is reaped. */
  function PagesOf(t: Task): seq<PageRun> {
    (if t.isElf then [PageRun(t.offset, t.pageCount)] else []) + [PageRun(t.stack, TASK_STACK_PAGES)]
  }

  function AllPages(tasks: Tasks, ids: seq<nat>): seq<PageRun>
    requires Known(tasks, ids)
  {
    if ids == [] then [] else AllPages(tasks, ids[..|ids| - 1]) + PagesOf(tasks[ids[|ids| - 1]])
  }

  /** The stack pointer a task would continue with lies in its stack. */
  predicate StackFits(t: Task, c: Context) {
    t.stack <= c.rsp <= t.stack + TASK_STACK_PAGES * 0x1000
  }

  datatype Outcome = NotScheduling | Resumed | StackOverflow

  function Zeroed(): Context {
    Context(0, 0, 0, 0, 0, 0, 0, 0, 0, 0, 0, 0, 0, 0, 0, 0, 0, 0)
  }

  /** What new_task makes of an entry point. */
  function Fresh(entry: nat, taskEntry: nat, stack: nat): Task {
    Task(Zeroed().(rax := entry, rip := taskEntry, rsp := stack + TASK_STACK_PAGES * 4096), stack, true, false, false, false, 0, 0)
  }

  function Idle(loop: nat, stack: nat): Task {
    Task(Zeroed().(rip := loop, rsp := stack + TASK_STACK_PAGES * 4096), stack, true, false, false, false, 0, 0)
  }

  class Scheduler {
    const queues: seq<Queue>
    var tasks: Tasks
    var scheduling: bool
    var released: seq<PageRun>  // what free_pages was called with

    ghost predicate Valid()
      reads this, queues, set q | q in queues :: q.list
    {
      && |queues| == CPUS
      && (forall i :: 0 <= i < CPUS ==> queues[i].Valid())
      && forall i, j :: 0 <= i < j < CPUS ==> queues[i] != queues[j] && queues[i].list != queues[j].list
    }

    /** The loop at next: reaps killed heads, passes over locked ones. */
    method Settled(id: nat)
      requires Valid() && id < CPUS && queues[id].len < SLOTS
      requires Known(tasks, queues[id].Contents()) && Distinct(queues[id].Contents())
      requires FirstRunnable(tasks, queues[id].Contents()) < |queues[id].Contents()|
      modifies `tasks, `released, queues[id], queues[id].list
      ensures Valid() && queues[id].len < SLOTS
      ensures queues[id].Contents() == Settle(old(tasks), old(queues[id].Contents()))
      ensures var reaped := Reaped(old(tasks), old(queues[id].Contents()));
        && tasks == old(tasks) - (set t | t in reaped)
        && Known(old(tasks), reaped) && released == old(released) + AllPages(old(tasks), reaped)
    {
      hide Settle, FirstRunnable, Killed, Rotate;
      ghost var tasks0, q0, done := tasks, queues[id].Contents(), [];
      var queue := queues[id];
      LoopStarts(tasks0, q0);
      assert DonePages(tasks0, done) == [];
      while true
        invariant Valid() && queue.len < SLOTS
        invariant released == old(released) + DonePages(tasks0, done)
        invariant LoopState(tasks0, tasks, q0, queue.Contents(), done)
        decreases if Known(tasks0, queue.Contents()) then FirstRunnable(tasks0, queue.Contents()) else 0
      {
        ghost var q := queue.Contents();
        var t := queue.list[0];
        LoopHead(tasks0, tasks, q0, q, done);
        if tasks[t].killMe {
          released := released + PagesOf(tasks[t]);
          tasks := tasks - {t};
          queue.RemoveFirst();
          done := done + [t];
        } else if tasks[t].lock {
          queue.Next();
        } else {
          break;
        }
      }
    }

    /** The timer interrupt. The head's registers are saved unless it never ran,
        the queue rotates, killed heads are reaped and locked ones passed over, and
        the registers of the task then at the head are loaded. */
    method Schedule(id: nat, regs: Registers) returns (r: Outcome)
      requires Valid() && id < CPUS && queues[id].len < SLOTS
      requires scheduling && queues[id].len > 0 ==> Ready(tasks, queues[id].Contents()) && Distinct(queues[id].Contents())
      modifies `tasks, `released, queues[id], queues[id].list
      modifies regs`rax, regs`rbx, regs`rcx, regs`rdx, regs`r8, regs`r9, regs`r10, regs`r11, regs`r12, regs`r13, regs`r14
      modifies regs`r15, regs`rip, regs`rsp, regs`rbp, regs`rsi, regs`rdi, regs`rflags
      ensures Valid()
      ensures r == NotScheduling <==> old(queues[id].len == 0 || !scheduling)
      ensures r == NotScheduling ==> tasks == old(tasks) && queues[id].Contents() == old(queues[id].Contents())
      ensures r == NotScheduling ==> regs.Saved() == old(regs.Saved()) && released == old(released)
      ensures r != NotScheduling ==>
                Done(old(tasks), old(queues[id].Contents()), old(regs.Saved()), tasks, queues[id].Contents(), regs.Saved(), r)
      ensures r != NotScheduling ==>
                released == old(released) + PagesGivenBack(old(tasks), old(queues[id].Contents()), old(regs.Saved()))
    {
      hide Settle, FirstRunnable, Killed, Rotate, Ready, Distinct, Known, AllPages;
      var queue := queues[id];
      if queue.len == 0 || !scheduling { return NotScheduling; }
      ghost var tasks0, q0, frame := tasks, queue.Contents(), regs.Saved();
      SwitchSteps(tasks, q0, frame);
      var t := queue.list[0];
      if !tasks[t].firstSched {
        tasks := tasks[t := tasks[t].(regs := regs.Saved())];
      }
      queue.Next();
      Settled(id);
      t := queue.list[0];
      var loaded := tasks[t];
      if loaded.regs.rsp < loaded.stack || loaded.regs.rsp > loaded.stack + TASK_STACK_PAGES * 0x1000 {
        return StackOverflow;
      }
      regs.Load(loaded.regs);
      tasks := tasks[t := loaded.(firstSched := false)];
      r := Resumed;
    }

    /** The least loaded present CPU, the first of them if there are several; the
        boot CPU without multiprocessor scheduling. */
    method ChooseQueue(numcore: nat, presend: seq<bool>, noSmpShed: bool, bspid: nat) returns (idx: nat)
      requires Valid() && numcore <= CPUS && |presend| == CPUS && bspid < CPUS
      ensures idx < CPUS
      ensures noSmpShed ==> idx == bspid
      ensures !noSmpShed && (exists i :: 0 <= i < numcore && presend[i]) ==> LeastLoaded(numcore, presend, idx)
      ensures !noSmpShed && (forall i :: 0 <= i < numcore ==> !presend[i]) ==> idx == 0
    {
      idx := 0;
      if !noSmpShed {
        var min := 0xf0f0;
        for i := 0 to numcore
          invariant idx < CPUS
          invariant min == 0xf0f0 || min <= SLOTS
          invariant min == 0xf0f0 ==> idx == 0 && forall j :: 0 <= j < i ==> !presend[j]
          invariant min != 0xf0f0 ==> LeastLoaded(i, presend, idx) && min == queues[idx].len
        {
          if !presend[i] { continue; }
          if queues[i].len < min {
            min := queues[i].len;
            idx := i;
          }
        }
      } else {
        idx := bspid;
      }
    }

    ghost predicate LeastLoaded(numcore: nat, presend: seq<bool>, idx: nat)
      requires |queues| == |presend| == CPUS && numcore <= CPUS
      reads queues
    {
      && idx < numcore && presend[idx]
      && (forall i :: 0 <= i < numcore && presend[i] ==> queues[idx].len <= queues[i].len)
      && (forall i :: 0 <= i < idx && presend[i] ==> queues[idx].len < queues[i].len)
    }

    /** The queue new_task will choose holds fewer than 15 tasks. */
    ghost predicate HasRoom(numcore: nat, presend: seq<bool>, noSmpShed: bool, bspid: nat)
      requires |queues| == |presend| == CPUS && numcore <= CPUS && bspid < CPUS
      reads queues
    {
      if noSmpShed then queues[bspid].len < SLOTS - 1
      else if exists i :: 0 <= i < numcore && presend[i]
      then exists i :: 0 <= i < numcore && presend[i] && queues[i].len < SLOTS - 1
      else queues[0].len < SLOTS - 1
    }

    /** A new task at the address malloc returned, appended to the chosen queue. */
    method NewTask(entry: nat, address: nat, stack: nat, taskEntry: nat, numcore: nat, presend: seq<bool>, noSmpShed: bool, bspid: nat)
      returns (idx: nat)
      requires Valid() && numcore <= CPUS && |presend| == CPUS && bspid < CPUS && address !in tasks
      requires HasRoom(numcore, presend, noSmpShed, bspid)
      modifies `tasks, queues, set q | q in queues :: q.list
      ensures Valid() && idx < CPUS && queues[idx].len < SLOTS
      ensures noSmpShed ==> idx == bspid
      ensures !noSmpShed && (exists i :: 0 <= i < numcore && presend[i]) ==> old(LeastLoaded(numcore, presend, idx))
      ensures tasks == old(tasks)[address := Fresh(entry, taskEntry, stack)]
      ensures queues[idx].Contents() == old(queues[idx].Contents()) + [address]
      ensures forall i :: 0 <= i < CPUS && i != idx ==> queues[i].Contents() == old(queues[i].Contents())
    {
      idx := ChooseQueue(numcore, presend, noSmpShed, bspid);
      tasks := tasks[address := Fresh(entry, taskEntry, stack)];
      queues[idx].Add(address);
    }

    /** Marks the task that runs on the calling CPU. */
    method TaskExit(id: nat)
      requires Valid() && id < CPUS && queues[id].len > 0 && queues[id].Contents()[0] in tasks
      modifies `tasks
      ensures Valid()
      ensures var t := queues[id].Contents()[0]; tasks == old(tasks)[t := old(tasks)[t].(killMe := true)]
    {
      var t := queues[id].list[0];
      tasks := tasks[t := tasks[t].(killMe := true)];
    }

    method AddIdle(i: nat, address: nat, loop: nat, stack: nat)
      requires Valid() && i < CPUS && queues[i].len == 0
      modifies `tasks, queues[i], queues[i].list
      ensures Valid() && queues[i].Contents() == [address]
      ensures tasks == old(tasks)[address := Idle(loop, stack)]
      ensures forall j :: 0 <= j < CPUS && j != i ==> queues[j].len == old(queues[j].len) && queues[j].Contents() == old(queues[j].Contents())
    {
      tasks := tasks[address := Idle(loop, stack)];
      queues[i].Add(address);
    }

    /** One idle task per CPU; from then on the scheduler runs. */
    method InitSched(loop: nat, ids: seq<nat>, stacks: seq<nat>)
      requires Valid() && |ids| == |stacks| <= CPUS && Distinct(ids)
      requires forall i :: 0 <= i < CPUS ==> queues[i].len == 0
      modifies this, queues, set q | q in queues :: q.list
      ensures Valid() && scheduling
      ensures forall i :: 0 <= i < |ids| ==> queues[i].Contents() == [ids[i]]
      ensures forall i :: 0 <= i < |ids| ==> ids[i] in tasks && tasks[ids[i]] == Idle(loop, stacks[i])
    {
      hide Idle;
      for i := 0 to |ids|
        invariant Valid()
        invariant forall j :: 0 <= j < i ==> queues[j].Contents() == [ids[j]]
        invariant forall j :: i <= j < CPUS ==> queues[j].len == 0
        invariant forall j :: 0 <= j < i ==> ids[j] in tasks && tasks[ids[j]] == Idle(loop, stacks[j])
      {
        AddIdle(i, ids[i], loop, stacks[i]);
      }
      scheduling := true;
    }
  }

  /** The machine that init_sched leaves: the CPUs it was given tasks for, all in
      their boot code, every task due the registers it was created with. */
  ghost function Booted(tasks: Tasks, queues: seq<seq<nat>>, ids: seq<nat>): Machine {
    Machine(tasks, queues, ids, seq(|ids|, _ => Boot), map t | t in tasks :: tasks[t].regs)
  }

  /** It is a good start for every run of sched_runs.dfy. */
  lemma InitSchedIsInitial(tasks: Tasks, queues: seq<seq<nat>>, ids: seq<nat>, loop: nat, stacks: seq<nat>)
    requires |queues| == |ids| == |stacks| && Distinct(ids)
    requires forall i :: 0 <= i < |ids| ==> queues[i] == [ids[i]]
    requires forall i :: 0 <= i < |ids| ==> ids[i] in tasks && tasks[ids[i]] == Idle(loop, stacks[i])
    ensures Initial(Booted(tasks, queues, ids)) && SchedRuns.Good(Booted(tasks, queues, ids))
  {
    var m := Booted(tasks, queues, ids);
    forall c: nat | c < |queues| ensures m.running[c] == Boot && CpuOk(m, c) {
      assert queues[c] == [ids[c]];
      assert forall t :: t in [ids[c]] ==> t == ids[c];
    }
    InitialIsGood(m);
  }

  /** And what new_task appends is a legal new task there. */
  lemma NewTaskIsLegal(m: Machine, cpu: nat, address: nat, entry: nat, taskEntry: nat, stack: nat)
    requires SchedRuns.Good(m) && cpu < |m.queues| && address !in m.tasks
    ensures Legal(m, Create(cpu, address, Fresh(entry, taskEntry, stack)))
    ensures var m' := Step(m, Create(cpu, address, Fresh(entry, taskEntry, stack)));
      && m'.tasks == m.tasks[address := Fresh(entry, taskEntry, stack)]
      && m'.queues == m.queues[cpu := m.queues[cpu] + [address]]
  {
    forall d | 0 <= d < |m.queues| ensures address !in m.queues[d] {
      QueueDistinct(m, d);
    }
  }

  ghost predicate Done(tasks: Tasks, q: seq<nat>, frame: Context, tasks': Tasks, q': seq<nat>, frame': Context, r: Outcome) {
    && q != [] && Ready(tasks, q)
    && var s := Switched(tasks, q, frame);
       && q' == s.queue && s.next in s.tasks
       && (r == Resumed || r == StackOverflow)
       && (r == Resumed <==> StackFits(s.tasks[s.next], s.loaded))
       && (r == Resumed ==> tasks' == s.tasks && frame' == s.loaded)
       && (r == StackOverflow ==> frame' == frame && s.next in tasks' && tasks'[s.next].regs == s.loaded)
       && (r == StackOverflow ==> tasks'[s.next := s.tasks[s.next]] == s.tasks)
  }

  ghost function PagesGivenBack(tasks: Tasks, q: seq<nat>, frame: Context): seq<PageRun> {
    if q != [] && Ready(tasks, q) then
      var t1 := Saved(tasks, q[0], frame);
      if Known(t1, Switched(tasks, q, frame).reaped) then AllPages(t1, Switched(tasks, q, frame).reaped) else []
    else []
  }

  /** The steps of schedule add up to the switch. */
  lemma SwitchSteps(tasks: Tasks, q: seq<nat>, frame: Context)
    requires q != [] && Ready(tasks, q) && Distinct(q)
    ensures q[0] in tasks
    ensures var t1, q1 := Saved(tasks, q[0], frame), Rotate(q);
      && Known(t1, q1) && Distinct(q1) && FirstRunnable(t1, q1) < |q1|
      && var q2 := Settle(t1, q1);
         var rest := t1 - (set t | t in Reaped(t1, q1));
         && q2[0] in t1 && q2[0] in rest && rest[q2[0]] == t1[q2[0]]
         && Known(t1, Reaped(t1, q1))
         && Switched(tasks, q, frame) == Switch(rest[q2[0] := t1[q2[0]].(firstSched := false)], q2, q2[0], t1[q2[0]].regs, Reaped(t1, q1))
  {
    hide Settle, Killed, FirstRunnable, Reaped;
    SavedIsReady(tasks, q, frame);
    ReadyHasRunnable(Saved(tasks, q[0], frame), Rotate(q));
    RotateDistinctly(q);
    SettleMembers(Saved(tasks, q[0], frame), Rotate(q));
    var q2 := Settle(Saved(tasks, q[0], frame), Rotate(q));
    assert q2[0] in q2;
  }

  ghost function DonePages(tasks: Tasks, ids: seq<nat>): seq<PageRun> {
    if Known(tasks, ids) then AllPages(tasks, ids) else []
  }

  /** The loop at next has reaped done and still has q before it. */
  ghost predicate LoopState(tasks0: Tasks, tasks: Tasks, q0: seq<nat>, q: seq<nat>, done: seq<nat>) {
    && Known(tasks0, q0) && Known(tasks0, q) && Known(tasks0, done)
    && FirstRunnable(tasks0, q0) < |q0| && FirstRunnable(tasks0, q) < |q|
    && Settle(tasks0, q) == Settle(tasks0, q0)
    && done + Reaped(tasks0, q) == Reaped(tasks0, q0)
    && Distinct(q) && (forall t :: t in done ==> t !in q)
    && tasks == tasks0 - (set t | t in done)
  }

  lemma LoopStarts(tasks: Tasks, q: seq<nat>)
    requires Known(tasks, q) && Distinct(q) && FirstRunnable(tasks, q) < |q|
    ensures LoopState(tasks, tasks, q, q, [])
  {
    hide Settle, FirstRunnable, Killed;
    assert tasks - (set t | t in []) == tasks;
  }

  lemma ReapedUnfolds(tasks: Tasks, q: seq<nat>)
    requires Known(tasks, q) && FirstRunnable(tasks, q) < |q|
    ensures FirstRunnable(tasks, q) == 0 ==> Reaped(tasks, q) == []
    ensures FirstRunnable(tasks, q) > 0 && tasks[q[0]].killMe ==> Known(tasks, q[1..]) && Reaped(tasks, q) == [q[0]] + Reaped(tasks, q[1..])
    ensures FirstRunnable(tasks, q) > 0 && !tasks[q[0]].killMe ==> Known(tasks, Rotate(q)) && Reaped(tasks, q) == Reaped(tasks, Rotate(q))
  {
    hide FirstRunnable, Rotate, Settle, Killed;
    var k := FirstRunnable(tasks, q);
    SettleUnfolds(tasks, q);
    KilledCut(tasks, q, k);
  }

  lemma KilledCut(tasks: Tasks, q: seq<nat>, k: nat)
    requires Known(tasks, q) && k < |q|
    ensures k == 0 ==> Killed(tasks, q[..k]) == []
    ensures k > 0 ==> Known(tasks, q[1..][..k - 1]) && Rotate(q)[..k - 1] == q[1..][..k - 1]
    ensures k > 0 ==> Killed(tasks, q[..k]) == (if tasks[q[0]].killMe then [q[0]] else []) + Killed(tasks, q[1..][..k - 1])
  {
    if k > 0 { assert q[..k][1..] == q[1..][..k - 1]; }
  }

  /** One round of the loop, by the head it meets. */
  lemma LoopHead(tasks0: Tasks, tasks: Tasks, q0: seq<nat>, q: seq<nat>, done: seq<nat>)
    requires LoopState(tasks0, tasks, q0, q, done)
    ensures q != [] && q[0] in tasks && q[0] in tasks0 && tasks[q[0]] == tasks0[q[0]]
    ensures tasks[q[0]].killMe ==>
      LoopState(tasks0, tasks - {q[0]}, q0, q[1..], done + [q[0]])
      && FirstRunnable(tasks0, q[1..]) < FirstRunnable(tasks0, q)
      && DonePages(tasks0, done + [q[0]]) == DonePages(tasks0, done) + PagesOf(tasks[q[0]])
    ensures !tasks[q[0]].killMe && tasks[q[0]].lock ==>
      LoopState(tasks0, tasks, q0, Rotate(q), done) && FirstRunnable(tasks0, Rotate(q)) < FirstRunnable(tasks0, q)
    ensures Runs(tasks, q[0]) ==> q == Settle(tasks0, q0) && done == Reaped(tasks0, q0)
  {
    hide Settle, FirstRunnable, Killed, Rotate, Reaped, AllPages, Distinct;
    assert q[0] in q;
    HeadDecides(tasks0, q);
    SettleUnfolds(tasks0, q);
    ReapedUnfolds(tasks0, q);
    if FirstRunnable(tasks0, q) > 0 {
      if tasks[q[0]].killMe {
        DropKilled(tasks0, tasks, q0, q, done);
      } else {
        RotateMembers(q);
        RotateDistinctly(q);
      }
    }
  }

  lemma HeadDecides(tasks: Tasks, q: seq<nat>)
    requires Known(tasks, q) && q != []
    ensures FirstRunnable(tasks, q) == 0 <==> Runs(tasks, q[0])
  {
  }

  lemma DropKilled(tasks0: Tasks, tasks: Tasks, q0: seq<nat>, q: seq<nat>, done: seq<nat>)
    requires LoopState(tasks0, tasks, q0, q, done) && q != [] && q[0] in tasks0
    ensures Known(tasks0, q[1..]) && Known(tasks0, done + [q[0]]) && Distinct(q[1..])
    ensures forall t :: t in done + [q[0]] ==> t !in q[1..]
    ensures tasks - {q[0]} == tasks0 - (set t | t in done + [q[0]])
    ensures AllPages(tasks0, done + [q[0]]) == AllPages(tasks0, done) + PagesOf(tasks0[q[0]])
    ensures (done + [q[0]]) + Reaped(tasks0, q) == done + ([q[0]] + Reaped(tasks0, q))
  {
    hide Settle, FirstRunnable, Killed, Reaped;
    var d := done + [q[0]];
    assert d[..|d| - 1] == done;
    assert (set t | t in d) == (set t | t in done) + {q[0]};
  }
}

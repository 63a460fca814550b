/** Whole runs of the scheduler on any number of CPUs, timer interrupts, new and
    exiting tasks interleaved (src/scheduling/scheduler/scheduler.cpp:79-160,
    225-330). Each event is atomic: the code holds task_queue_lock. */
module SchedRuns {
  import opened SchedQueue
  import opened SchedModel

  /** What a CPU executes: its boot code, or the task at the head of its queue. */
  datatype Current = Boot | On(task: nat)

  /** due says, for each task, with which registers it has to continue: those it
      was created with, or those it was last interrupted with. */
  datatype Machine = Machine(tasks: Tasks, queues: seq<seq<nat>>, idle: seq<nat>, running: seq<Current>, due: map<nat, Context>)

  datatype Event =
    | Timer(cpu: nat, frame: Context)
    | Create(cpu: nat, id: nat, task: Task)
    | Exit(cpu: nat)
    | Mark(id: nat, killed: bool, locked: bool)

  // ----- one CPU -----

  ghost predicate DueOf(tasks: Tasks, due: map<nat, Context>, cur: Current, t: nat) {
    && t in tasks && t in due && tasks[t].regs == due[t]
    && (cur.Boot? ==> tasks[t].firstSched)
  }

  ghost predicate CpuGood(tasks: Tasks, due: map<nat, Context>, q: seq<nat>, idle: nat, cur: Current) {
    && Known(tasks, q) && Distinct(q)
    && idle in q && Runs(tasks, idle)
    && (cur.On? ==> q[0] == cur.task && !tasks[cur.task].firstSched)
    && forall t :: t in q && cur != On(t) ==> DueOf(tasks, due, cur, t)
  }

  function Preempted(due: map<nat, Context>, cur: Current, frame: Context): map<nat, Context> {
    if cur.On? then due[cur.task := frame] else due
  }

  lemma CpuReady(tasks: Tasks, due: map<nat, Context>, q: seq<nat>, idle: nat, cur: Current)
    requires CpuGood(tasks, due, q, idle, cur)
    ensures q != [] && Ready(tasks, q)
  {
  }

  /** After the save every task of the queue holds the registers it is due. */
  lemma SaveIsDue(tasks: Tasks, due: map<nat, Context>, q: seq<nat>, idle: nat, cur: Current, frame: Context)
    requires CpuGood(tasks, due, q, idle, cur)
    ensures q != [] && Known(Saved(tasks, q[0], frame), q)
    ensures forall t :: t in q ==> t in Preempted(due, cur, frame)
    ensures forall t :: t in q ==> Saved(tasks, q[0], frame)[t].regs == Preempted(due, cur, frame)[t]
  {
    assert q[0] in q;
    forall t | t in q
      ensures t in Preempted(due, cur, frame) && Saved(tasks, q[0], frame)[t].regs == Preempted(due, cur, frame)[t]
    {
      if cur != On(t) { assert DueOf(tasks, due, cur, t); }
    }
  }

  /** What Switched does, without how. */
  lemma SwitchedParts(tasks: Tasks, q: seq<nat>, frame: Context)
    requires q != [] && Ready(tasks, q) && Distinct(q)
    ensures var s, t1 := Switched(tasks, q, frame), Saved(tasks, q[0], frame);
      && s.queue != [] && s.queue[0] == s.next && Distinct(s.queue)
      && (forall t :: t in s.queue ==> t in q && t in tasks && t in s.tasks)
      && (forall t :: t in q ==> t in s.queue || (t in tasks && tasks[t].killMe && t !in s.tasks))
      && (forall t :: t in s.queue ==> s.tasks[t] == if t == s.next then t1[t].(firstSched := false) else t1[t])
      && (forall t :: t !in q ==> (t in s.tasks <==> t in tasks) && (t in tasks ==> s.tasks[t] == tasks[t]))
      && s.loaded == t1[s.next].regs
  {
    hide Settle, Killed, FirstRunnable;
    var t1, q1 := Saved(tasks, q[0], frame), Rotate(q);
    SavedIsReady(tasks, q, frame);
    ReadyHasRunnable(t1, q1);
    RotateMembers(q);
    RotateDistinctly(q);
    SettleMembers(t1, q1);
  }

  /** The register frame a timer interrupt leaves is the one the chosen task is due. */
  lemma TimerOnCpu(tasks: Tasks, due: map<nat, Context>, q: seq<nat>, idle: nat, cur: Current, frame: Context)
    requires CpuGood(tasks, due, q, idle, cur)
    ensures q != [] && Ready(tasks, q)
    ensures var s, due' := Switched(tasks, q, frame), Preempted(due, cur, frame);
      && CpuGood(s.tasks, due', s.queue, idle, On(s.next))
      && s.next in due' && s.loaded == due'[s.next]
  {
    hide Switched, Saved;
    CpuReady(tasks, due, q, idle, cur);
    SaveIsDue(tasks, due, q, idle, cur, frame);
    SwitchedParts(tasks, q, frame);
    FlagsKept(tasks, q[0], frame, idle);
  }

  lemma FlagsKept(tasks: Tasks, t: nat, frame: Context, u: nat)
    requires t in tasks && u in tasks
    ensures u in Saved(tasks, t, frame)
    ensures Saved(tasks, t, frame)[u].killMe == tasks[u].killMe && Saved(tasks, t, frame)[u].lock == tasks[u].lock
  {
  }

  // ----- all CPUs -----

  ghost predicate Apart(queues: seq<seq<nat>>) {
    forall c, d, t :: 0 <= c < |queues| && 0 <= d < |queues| && c != d && t in queues[c] ==> t !in queues[d]
  }

  ghost predicate CpuOk(m: Machine, c: nat)
    requires c < |m.queues| == |m.idle| == |m.running|
  {
    CpuGood(m.tasks, m.due, m.queues[c], m.idle[c], m.running[c])
  }

  ghost predicate Good(m: Machine) {
    && |m.queues| == |m.idle| == |m.running|
    && Apart(m.queues)
    && forall c: nat :: c < |m.queues| ==> CpuOk(m, c)
  }

  /** The idle tasks are never killed or locked; a task exits on the CPU it runs on. */
  ghost predicate Legal(m: Machine, e: Event) {
    match e
    case Timer(c, _) => c < |m.queues|
    case Create(c, id, task) => c < |m.queues| && id !in m.tasks && (forall d :: 0 <= d < |m.queues| ==> id !in m.queues[d]) && task.firstSched
    case Exit(c) => c < |m.running| && m.running[c].On? && m.running[c].task in m.tasks && m.running[c].task !in m.idle
    case Mark(id, _, _) => id in m.tasks && id !in m.idle
  }

  ghost function Step(m: Machine, e: Event): Machine
    requires Good(m) && Legal(m, e)
  {
    match e
    case Timer(c, frame) =>
      assert CpuOk(m, c);
      CpuReady(m.tasks, m.due, m.queues[c], m.idle[c], m.running[c]);
      var s := Switched(m.tasks, m.queues[c], frame);
      m.(tasks := s.tasks, queues := m.queues[c := s.queue], running := m.running[c := On(s.next)],
         due := Preempted(m.due, m.running[c], frame))
    case Create(c, id, task) =>
      m.(tasks := m.tasks[id := task], queues := m.queues[c := m.queues[c] + [id]], due := m.due[id := task.regs])
    case Exit(c) =>
      var t := m.running[c].task;
      m.(tasks := m.tasks[t := m.tasks[t].(killMe := true)])
    case Mark(id, killed, locked) =>
      m.(tasks := m.tasks[id := m.tasks[id].(killMe := killed, lock := locked)])
  }

  /** The other CPUs see nothing of an event on tasks that are not theirs. */
  lemma CpuFrame(tasks: Tasks, tasks': Tasks, due: map<nat, Context>, due': map<nat, Context>, q: seq<nat>, idle: nat, cur: Current)
    requires CpuGood(tasks, due, q, idle, cur)
    requires forall t :: t in q ==> t in tasks' && tasks'[t] == tasks[t]
    requires forall t :: t in q && t in due ==> t in due' && due'[t] == due[t]
    ensures CpuGood(tasks', due', q, idle, cur)
  {
    forall t | t in q && cur != On(t) ensures DueOf(tasks', due', cur, t) {
      assert DueOf(tasks, due, cur, t);
    }
  }

  /** Changing only the killed and locked flags of a task that is not idle. */
  lemma CpuFlags(tasks: Tasks, due: map<nat, Context>, q: seq<nat>, idle: nat, cur: Current, id: nat, killed: bool, locked: bool)
    requires CpuGood(tasks, due, q, idle, cur) && id in tasks && id != idle
    ensures CpuGood(tasks[id := tasks[id].(killMe := killed, lock := locked)], due, q, idle, cur)
  {
    forall t | t in q && cur != On(t) ensures DueOf(tasks[id := tasks[id].(killMe := killed, lock := locked)], due, cur, t) {
      assert DueOf(tasks, due, cur, t);
    }
  }

  lemma CpuAppend(tasks: Tasks, due: map<nat, Context>, q: seq<nat>, idle: nat, cur: Current, id: nat, task: Task)
    requires CpuGood(tasks, due, q, idle, cur) && id !in tasks && task.firstSched
    ensures CpuGood(tasks[id := task], due[id := task.regs], q + [id], idle, cur)
  {
    assert id !in q;
    forall t | t in q + [id] && cur != On(t) ensures DueOf(tasks[id := task], due[id := task.regs], cur, t) {
      if t != id { assert DueOf(tasks, due, cur, t); }
    }
  }

  lemma TimerKeepsGood(m: Machine, c: nat, frame: Context)
    requires Good(m) && Legal(m, Timer(c, frame))
    ensures Good(Step(m, Timer(c, frame)))
  {
    hide CpuGood, Switched;
    var m' := Step(m, Timer(c, frame));
    assert CpuOk(m, c);
    QueueDistinct(m, c);
    TimerOnCpu(m.tasks, m.due, m.queues[c], m.idle[c], m.running[c], frame);
    SwitchedParts(m.tasks, m.queues[c], frame);
    forall d: nat | d < |m.queues| ensures CpuOk(m', d) {
      assert CpuOk(m, d);
      if d != c {
        RunningHere(m, c);
        CpuFrame(m.tasks, m'.tasks, m.due, m'.due, m.queues[d], m.idle[d], m.running[d]);
      }
    }
  }

  lemma QueueDistinct(m: Machine, c: nat)
    requires Good(m) && c < |m.queues|
    ensures Distinct(m.queues[c]) && Known(m.tasks, m.queues[c])
    ensures forall d: nat :: d < |m.queues| ==> Known(m.tasks, m.queues[d])
  {
    assert CpuOk(m, c);
    forall d: nat | d < |m.queues| ensures Known(m.tasks, m.queues[d]) { assert CpuOk(m, d); }
  }

  lemma RunningHere(m: Machine, c: nat)
    requires Good(m) && c < |m.queues|
    ensures m.running[c].On? ==> m.running[c].task in m.queues[c]
  {
    assert CpuOk(m, c);
  }

  lemma StepKeepsGood(m: Machine, e: Event)
    requires Good(m) && Legal(m, e)
    ensures Good(Step(m, e))
  {
    hide CpuGood, Switched;
    match e
    case Timer(c, frame) => TimerKeepsGood(m, c, frame);
    case Create(c, id, task) => CreateKeepsGood(m, c, id, task);
    case Exit(c) =>
      FlagsKeepGood(m, m.running[c].task, true, m.tasks[m.running[c].task].lock);
    case Mark(id, killed, locked) => FlagsKeepGood(m, id, killed, locked);
  }

  lemma CreateKeepsGood(m: Machine, c: nat, id: nat, task: Task)
    requires Good(m) && Legal(m, Create(c, id, task))
    ensures Good(Step(m, Create(c, id, task)))
  {
    hide CpuGood;
    var m' := Step(m, Create(c, id, task));
    forall d: nat | d < |m.queues| ensures CpuOk(m', d) {
      assert CpuOk(m, d);
      if d == c {
        CpuAppend(m.tasks, m.due, m.queues[c], m.idle[c], m.running[c], id, task);
      } else {
        QueueDistinct(m, d);
        CpuFrame(m.tasks, m'.tasks, m.due, m'.due, m.queues[d], m.idle[d], m.running[d]);
      }
    }
  }

  lemma FlagsKeepGood(m: Machine, id: nat, killed: bool, locked: bool)
    requires Good(m) && id in m.tasks && id !in m.idle
    ensures Good(m.(tasks := m.tasks[id := m.tasks[id].(killMe := killed, lock := locked)]))
  {
    hide CpuGood;
    var m' := m.(tasks := m.tasks[id := m.tasks[id].(killMe := killed, lock := locked)]);
    forall d: nat | d < |m.queues| ensures CpuOk(m', d) {
      assert CpuOk(m, d);
      CpuFlags(m.tasks, m.due, m.queues[d], m.idle[d], m.running[d], id, killed, locked);
    }
  }

  // ----- runs -----

  /** After init_sched: every CPU has its idle task, nothing runs yet. */
  ghost predicate Initial(m: Machine) {
    && |m.queues| == |m.idle| == |m.running|
    && Apart(m.queues)
    && forall c: nat :: c < |m.queues| ==> m.running[c] == Boot && CpuOk(m, c)
  }

  lemma InitialIsGood(m: Machine)
    requires Initial(m)
    ensures Good(m)
  {
  }

  ghost predicate IsStep(m: Machine, e: Event, m': Machine) {
    Good(m) ==> Legal(m, e) && m' == Step(m, e)
  }

  ghost predicate IsRun(ms: seq<Machine>, es: seq<Event>) {
    && |ms| == |es| + 1 && Good(ms[0])
    && forall i: nat :: i < |es| ==> IsStep(ms[i], es[i], ms[i + 1])
  }

  lemma {:induction false} RunStaysGood(ms: seq<Machine>, es: seq<Event>, n: nat)
    requires IsRun(ms, es) && n < |ms|
    ensures Good(ms[n]) && |ms[n].queues| == |ms[0].queues|
    ensures n < |es| ==> Legal(ms[n], es[n]) && ms[n + 1] == Step(ms[n], es[n])
  {
    hide Good, Legal, Step;
    if n > 0 {
      RunStaysGood(ms, es, n - 1);
      StepKeepsGood(ms[n - 1], es[n - 1]);
      SameCpus(ms[n - 1], es[n - 1]);
    }
    if n < |es| { assert IsStep(ms[n], es[n], ms[n + 1]); }
  }

  lemma SameCpus(m: Machine, e: Event)
    requires Good(m) && Legal(m, e)
    ensures |Step(m, e).queues| == |m.queues|
  {
  }

  /** Resumed context is exact over every run on any number of CPUs: each timer
      interrupt leaves in the register frame the 18 registers the chosen task was
      last interrupted with, or was created with if it never ran. */
  lemma ResumedExactly(ms: seq<Machine>, es: seq<Event>, n: nat)
    requires IsRun(ms, es) && n < |es| && es[n].Timer?
    ensures var c, m, m' := es[n].cpu, ms[n], ms[n + 1];
      && c < |m.queues| && m.queues[c] != [] && Ready(m.tasks, m.queues[c])
      && var s := Switched(m.tasks, m.queues[c], es[n].frame);
         && c < |m.running| && c < |m'.running| && m'.running[c] == On(s.next)
         && s.next in m'.due && s.loaded == m'.due[s.next]
         && (m.running[c].On? ==> m'.due == m.due[m.running[c].task := es[n].frame])
         && (m.running[c].Boot? ==> m'.due == m.due)
  {
    hide Switched;
    RunStaysGood(ms, es, n);
    var c, m := es[n].cpu, ms[n];
    assert CpuOk(m, c);
    TimerOnCpu(m.tasks, m.due, m.queues[c], m.idle[c], m.running[c], es[n].frame);
  }

  /** A task that has not run yet still holds the context it was created with. */
  lemma {:induction false} FirstContextKept(ms: seq<Machine>, es: seq<Event>, n: nat, t: nat, task: Task)
    requires IsRun(ms, es) && n < |es| && t in ms[0].tasks && ms[0].tasks[t] == task && task.firstSched
    requires forall i: nat :: i <= n ==> t in ms[i].tasks && ms[i].tasks[t].firstSched
    ensures ms[n].tasks[t].regs == task.regs
    decreases n
  {
    hide Good;
    if n > 0 {
      FirstContextKept(ms, es, n - 1, t, task);
      RunStaysGood(ms, es, n - 1);
      FirstKept(ms[n - 1], es[n - 1], t);
    }
  }

  lemma FirstKept(m: Machine, e: Event, t: nat)
    requires Good(m) && Legal(m, e) && t in m.tasks && m.tasks[t].firstSched
    requires t in Step(m, e).tasks && Step(m, e).tasks[t].firstSched
    ensures Step(m, e).tasks[t].regs == m.tasks[t].regs
  {
    hide Switched;
    match e
    case Timer(c, frame) =>
      assert CpuOk(m, c);
      QueueDistinct(m, c);
      CpuReady(m.tasks, m.due, m.queues[c], m.idle[c], m.running[c]);
      SwitchedParts(m.tasks, m.queues[c], frame);
    case Create(c, id, task) =>
    case Exit(c) =>
    case Mark(id, killed, locked) =>
  }

  // ----- nothing is lost, nothing is reaped twice -----

  /** Only killed tasks disappear; every other one stays in the queue it is in. */
  lemma NoTaskLost(m: Machine, e: Event, c: nat, t: nat)
    requires Good(m) && Legal(m, e) && c < |m.queues| && t in m.queues[c]
    ensures var m' := Step(m, e);
      && t in m.tasks && c < |m'.queues|
      && (t in m'.queues[c] || m.tasks[t].killMe)
      && (t in m'.queues[c] <==> t in m'.tasks)
  {
    hide Switched;
    QueueDistinct(m, c);
    match e
    case Timer(d, frame) =>
      assert CpuOk(m, d);
      QueueDistinct(m, d);
      CpuReady(m.tasks, m.due, m.queues[d], m.idle[d], m.running[d]);
      SwitchedParts(m.tasks, m.queues[d], frame);
    case Create(d, id, task) =>
    case Exit(d) =>
    case Mark(id, killed, locked) =>
  }

  /** A reaped task is in no queue and stays gone until its address is given out again:
      nothing reaps it a second time. */
  lemma {:induction false} ReapedOnce(ms: seq<Machine>, es: seq<Event>, n: nat, t: nat)
    requires IsRun(ms, es) && n < |ms| && t !in ms[0].tasks
    requires forall i: nat :: i < n ==> !(es[i].Create? && es[i].id == t)
    ensures t !in ms[n].tasks && forall c: nat :: c < |ms[n].queues| ==> t !in ms[n].queues[c]
    decreases n
  {
    hide Switched;
    RunStaysGood(ms, es, n);
    if n > 0 {
      ReapedOnce(ms, es, n - 1, t);
      RunStaysGood(ms, es, n - 1);
      StaysAbsent(ms[n - 1], es[n - 1], t);
    }
    if |ms[n].queues| > 0 { QueueDistinct(ms[n], 0); }
  }

  lemma StaysAbsent(m: Machine, e: Event, t: nat)
    requires Good(m) && Legal(m, e) && t !in m.tasks && !(e.Create? && e.id == t)
    ensures t !in Step(m, e).tasks
  {
    hide Switched;
    match e
    case Timer(c, frame) =>
      assert CpuOk(m, c);
      QueueDistinct(m, c);
      CpuReady(m.tasks, m.due, m.queues[c], m.idle[c], m.running[c]);
      SwitchedParts(m.tasks, m.queues[c], frame);
    case Create(c, id, task) =>
    case Exit(c) =>
    case Mark(id, killed, locked) =>
  }

  // ----- every runnable task runs -----

  /** The timer interrupts of CPU c among the events. */
  function Timers(es: seq<Event>, c: nat): nat {
    if es == [] then 0 else (if es[0].Timer? && es[0].cpu == c then 1 else 0) + Timers(es[1..], c)
  }

  ghost predicate RunsIn(ms: seq<Machine>, c: nat, t: nat) {
    exists n: nat :: 0 < n < |ms| && c < |ms[n].running| && ms[n].running[c] == On(t)
  }

  ghost predicate StaysRunnable(ms: seq<Machine>, t: nat) {
    forall m :: m in ms ==> t in m.tasks && Runs(m.tasks, t)
  }

  lemma TailRun(ms: seq<Machine>, es: seq<Event>)
    requires IsRun(ms, es) && |es| > 0
    ensures IsRun(ms[1..], es[1..])
  {
    hide Good;
    RunStaysGood(ms, es, 1);
    forall i: nat | i < |es[1..]| ensures IsStep(ms[1..][i], es[1..][i], ms[1..][i + 1]) {
      assert IsStep(ms[i + 1], es[i + 1], ms[i + 2]);
    }
  }

  lemma TailRunsIn(ms: seq<Machine>, c: nat, t: nat)
    requires |ms| > 1 && RunsIn(ms[1..], c, t)
    ensures RunsIn(ms, c, t)
  {
    var n: nat :| 0 < n < |ms[1..]| && c < |ms[1..][n].running| && ms[1..][n].running[c] == On(t);
    assert ms[n + 1].running[c] == On(t);
  }

  /** No event but the CPU's own interrupts moves a task in its queue. */
  lemma PlaceKept(m: Machine, e: Event, c: nat, i: nat)
    requires Good(m) && Legal(m, e) && c < |m.queues| && i < |m.queues[c]|
    requires !(e.Timer? && e.cpu == c)
    ensures c < |Step(m, e).queues| && i < |Step(m, e).queues[c]| && Step(m, e).queues[c][i] == m.queues[c][i]
  {
  }

  /** A task at place i runs within i interrupts of its CPU, however many tasks
      are appended meanwhile. */
  lemma {:induction false} RunsWithin(ms: seq<Machine>, es: seq<Event>, c: nat, i: nat, t: nat)
    requires IsRun(ms, es) && c < |ms[0].queues| && 0 < i < |ms[0].queues[c]| && ms[0].queues[c][i] == t
    requires StaysRunnable(ms, t) && Timers(es, c) >= i
    ensures RunsIn(ms, c, t)
    decreases |es|
  {
    hide Good, Legal, Runs;
    RunStaysGood(ms, es, 0);
    assert ms[0] in ms;
    TailRun(ms, es);
    var j := NextPlace(ms[0], es[0], c, i);
    if es[0].Timer? && es[0].cpu == c && ms[1].running[c] == On(t) {
      assert RunsIn(ms, c, t);
    } else {
      RunsWithin(ms[1..], es[1..], c, j, t);
      TailRunsIn(ms, c, t);
    }
  }

  lemma NextPlace(m: Machine, e: Event, c: nat, i: nat) returns (j: nat)
    requires Good(m) && Legal(m, e) && c < |m.queues| && 0 < i < |m.queues[c]|
    requires m.queues[c][i] in m.tasks && Runs(m.tasks, m.queues[c][i])
    ensures var m', t, own := Step(m, e), m.queues[c][i], e.Timer? && e.cpu == c;
      && c < |m'.queues| == |m'.running|
      && ((own && m'.running[c] == On(t))
          || (0 < j < |m'.queues[c]| && m'.queues[c][j] == t && j <= if own then i - 1 else i))
  {
    hide Switched;
    j := i;
    if e.Timer? && e.cpu == c {
      assert CpuOk(m, c);
      CpuReady(m.tasks, m.due, m.queues[c], m.idle[c], m.running[c]);
      WaitsLess(m.tasks, m.queues[c], e.frame, i);
      var s := Switched(m.tasks, m.queues[c], e.frame);
      if s.next != m.queues[c][i] {
        j :| 0 < j < i && j < |s.queue| && s.queue[j] == m.queues[c][i];
      }
    } else {
      PlaceKept(m, e, c, i);
    }
  }

  /** The task that was just interrupted runs again within as many interrupts as
      its queue is long. */
  lemma RunsAgainWithinLen(ms: seq<Machine>, es: seq<Event>, c: nat, t: nat)
    requires IsRun(ms, es) && |es| > 0 && es[0].Timer? && es[0].cpu == c
    requires c < |ms[0].queues| && ms[0].queues[c] != [] && ms[0].queues[c][0] == t
    requires StaysRunnable(ms, t) && Timers(es, c) >= |ms[0].queues[c]|
    ensures RunsIn(ms, c, t)
  {
    hide Switched, Runs;
    RunStaysGood(ms, es, 0);
    assert ms[0] in ms && CpuOk(ms[0], c);
    TailRun(ms, es);
    CpuReady(ms[0].tasks, ms[0].due, ms[0].queues[c], ms[0].idle[c], ms[0].running[c]);
    RanGoesLast(ms[0].tasks, ms[0].queues[c], es[0].frame);
    var s := Switched(ms[0].tasks, ms[0].queues[c], es[0].frame);
    if s.next == t {
      assert ms[1].running[c] == On(t);
    } else {
      var j: nat :| 0 < j < |ms[0].queues[c]| && j < |s.queue| && s.queue[j] == t;
      RunsWithin(ms[1..], es[1..], c, j, t);
      TailRunsIn(ms, c, t);
    }
  }

  // ----- every killed task is reaped -----

  ghost predicate Gone(ms: seq<Machine>, t: nat) {
    exists n: nat :: n < |ms| && t !in ms[n].tasks
  }

  lemma TailGone(ms: seq<Machine>, t: nat)
    requires |ms| > 1 && Gone(ms[1..], t)
    ensures Gone(ms, t)
  {
    var n: nat :| n < |ms[1..]| && t !in ms[1..][n].tasks;
    assert t !in ms[n + 1].tasks;
  }

  /** A killed task at place i is reaped within i interrupts of its CPU. */
  lemma {:induction false} ReapedWithin(ms: seq<Machine>, es: seq<Event>, c: nat, i: nat, t: nat)
    requires IsRun(ms, es) && c < |ms[0].queues| && 0 < i < |ms[0].queues[c]| && ms[0].queues[c][i] == t
    requires forall m :: m in ms && t in m.tasks ==> m.tasks[t].killMe
    requires Timers(es, c) >= i
    ensures Gone(ms, t)
    decreases |es|
  {
    hide Good, Legal;
    RunStaysGood(ms, es, 0);
    QueueDistinct(ms[0], c);
    assert ms[0] in ms && ms[1] in ms;
    TailRun(ms, es);
    var j := NextPlaceKilled(ms[0], es[0], c, i);
    if t !in ms[1].tasks {
      assert Gone(ms, t);
    } else {
      ReapedWithin(ms[1..], es[1..], c, j, t);
      TailGone(ms, t);
    }
  }

  lemma NextPlaceKilled(m: Machine, e: Event, c: nat, i: nat) returns (j: nat)
    requires Good(m) && Legal(m, e) && c < |m.queues| && 0 < i < |m.queues[c]|
    requires m.queues[c][i] in m.tasks && m.tasks[m.queues[c][i]].killMe
    ensures var m', t, own := Step(m, e), m.queues[c][i], e.Timer? && e.cpu == c;
      && c < |m'.queues|
      && (t !in m'.tasks || (0 < j < |m'.queues[c]| && m'.queues[c][j] == t && j <= if own then i - 1 else i))
  {
    hide Switched;
    j := i;
    if e.Timer? && e.cpu == c {
      var t := m.queues[c][i];
      assert CpuOk(m, c);
      QueueDistinct(m, c);
      CpuReady(m.tasks, m.due, m.queues[c], m.idle[c], m.running[c]);
      KilledAdvances(m.tasks, m.queues[c], e.frame, i);
      SwitchedParts(m.tasks, m.queues[c], e.frame);
      var s := Switched(m.tasks, m.queues[c], e.frame);
      if t in s.queue {
        j :| 0 < j < i && j < |s.queue| && s.queue[j] == t;
      }
    } else {
      PlaceKept(m, e, c, i);
    }
  }
}

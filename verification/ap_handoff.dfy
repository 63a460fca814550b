/** The hand-off of functions to application processors, every shared access an
    atomic step of its own (src/apic/apic.cpp:51-70, 95-126). One dispatcher, the
    boot processor, calls run_on_ap and wait_for_aps; any number of application
    processors poll. Each call of run_on_ap gets a number, which stands for the
    function passed to it. */
module ApHandoff {
  // ap_status; an entry nobody has written yet holds 0
  const WAIT_FOR_WORK := 3
  const PLEASE_WORK := 4
  const RUNNING := 5

  datatype Cpu = Cpu(presend: bool, status: nat, work: nat)

  /** Where an application processor is in ap_main; NotAp never enters it. */
  datatype Pc = NotAp | Boot | Announce | WaitBsp | Poll | Mark | Call | Inside(job: nat) | Finish

  /** Where the boot processor is: the end of start_all_cpus, then between calls, in
      the loop of run_on_ap, at its two writes, or in wait_for_aps. */
  datatype Dispatcher = SetBspDone | SetPresend | Between | SeekPresend(i: nat, job: nat) | SeekStatus(i: nat, job: nat)
    | PutFunction(i: nat, job: nat) | PutStatus(i: nat, job: nat) | RunHere(job: nat) | WaitPresend(i: nat) | WaitStatus(i: nat)

  datatype Run = Run(cpu: int, job: nat)

  const HERE := -1  // run_on_ap's result when it calls the function itself

  /** home: which CPU each finished run_on_ap chose. started and ended: every
      execution of a function so far. */
  datatype State = State(cpus: seq<Cpu>, pcs: seq<Pc>, bspdone: bool, alone: bool, d: Dispatcher, calls: nat,
    home: map<nat, int>, started: multiset<Run>, ended: multiset<Run>)

  datatype Next = RunOnAp | WaitForAps  // what the dispatcher calls next

  function Plus(m: multiset<Run>, r: Run): (p: multiset<Run>)
    ensures p[r] == m[r] + 1 && forall q :: q != r ==> p[q] == m[q]
  {
    m + multiset{r}
  }

  function SetStatus(s: State, i: nat, status: nat): seq<Cpu>
    requires i < |s.cpus|
  {
    s.cpus[i := s.cpus[i].(status := status)]
  }

  /** One step of application processor i. */
  function ApStep(s: State, i: nat): State
    requires i < |s.cpus| == |s.pcs|
  {
    match s.pcs[i]
    case NotAp => s
    case Boot => s.(cpus := s.cpus[i := s.cpus[i].(presend := true)], pcs := s.pcs[i := Announce])
    case Announce => s.(cpus := SetStatus(s, i, WAIT_FOR_WORK), pcs := s.pcs[i := WaitBsp])
    case WaitBsp => if s.bspdone then s.(pcs := s.pcs[i := Poll]) else s
    case Poll => if s.cpus[i].status == PLEASE_WORK then s.(pcs := s.pcs[i := Mark]) else s
    case Mark => s.(cpus := SetStatus(s, i, RUNNING), pcs := s.pcs[i := Call])
    case Call =>
      var job := s.cpus[i].work;
      s.(pcs := s.pcs[i := Inside(job)], started := Plus(s.started, Run(i, job)))
    case Inside(job) => s.(pcs := s.pcs[i := Finish], ended := Plus(s.ended, Run(i, job)))
    case Finish => s.(cpus := SetStatus(s, i, WAIT_FOR_WORK), pcs := s.pcs[i := Poll])
  }

  /** One step of the dispatcher. */
  function DispatcherStep(s: State, next: Next): State
    requires 0 < |s.cpus| == |s.pcs|
  {
    match s.d
    case SetBspDone => s.(bspdone := true, d := SetPresend)
    case SetPresend => s.(cpus := s.cpus[0 := s.cpus[0].(presend := true)], d := Between)
    case Between =>
      if next == WaitForAps then s.(d := WaitPresend(0))
      else if s.alone then s.(d := RunHere(s.calls), calls := s.calls + 1, home := s.home[s.calls := HERE],
                              started := Plus(s.started, Run(HERE, s.calls)))
      else s.(d := SeekPresend(0, s.calls), calls := s.calls + 1)
    case RunHere(job) => s.(d := Between, ended := Plus(s.ended, Run(HERE, job)))
    case SeekPresend(i, job) =>
      if i >= |s.cpus| then s.(d := SeekPresend(0, job))
      else if s.cpus[i].presend then s.(d := SeekStatus(i, job)) else s.(d := SeekPresend(i + 1, job))
    case SeekStatus(i, job) =>
      if i < |s.cpus| && s.cpus[i].status == WAIT_FOR_WORK then s.(d := PutFunction(i, job)) else s.(d := SeekPresend(i + 1, job))
    case PutFunction(i, job) =>
      if i < |s.cpus| then s.(cpus := s.cpus[i := s.cpus[i].(work := job)], d := PutStatus(i, job)) else s
    case PutStatus(i, job) =>
      if i < |s.cpus| then s.(cpus := SetStatus(s, i, PLEASE_WORK), d := Between, home := s.home[job := i]) else s
    case WaitPresend(i) =>
      if i >= |s.cpus| then s.(d := Between)
      else if s.cpus[i].presend then s.(d := WaitStatus(i)) else s.(d := WaitPresend(i + 1))
    case WaitStatus(i) =>
      if i < |s.cpus| && (s.cpus[i].status == PLEASE_WORK || s.cpus[i].status == RUNNING) then s else s.(d := WaitPresend(i + 1))
  }

  // ----- the invariant -----

  /** Status and program counter of one application processor fit together. */
  predicate Fits(c: Cpu, pc: Pc) {
    match pc
    case NotAp => c.status == 0
    case Boot => c.status == 0
    case Announce => c.status == 0 && c.presend
    case WaitBsp => (c.status == WAIT_FOR_WORK || c.status == PLEASE_WORK) && c.presend
    case Poll => (c.status == WAIT_FOR_WORK || c.status == PLEASE_WORK) && c.presend
    case Mark => c.status == PLEASE_WORK && c.presend
    case Call => c.status == RUNNING && c.presend
    case Inside(_) => c.status == RUNNING && c.presend
    case Finish => c.status == RUNNING && c.presend
  }

  /** A function was handed to this CPU and has not started. */
  predicate Waiting(c: Cpu, pc: Pc) {
    c.status == PLEASE_WORK || pc == Call
  }

  ghost predicate JobOk(s: State, job: nat)
    requires |s.cpus| == |s.pcs|
  {
    && job in s.home && job < s.calls
    && var c := s.home[job];
       var r := Run(c, job);
       && s.ended[r] <= s.started[r] <= 1
       && (c == HERE || 0 <= c < |s.cpus|)
       && (c == HERE ==> s.started[r] == 1 && (s.ended[r] == 0 ==> s.d == RunHere(job)))
       && (c != HERE && s.started[r] == 0 ==> Waiting(s.cpus[c], s.pcs[c]) && s.cpus[c].work == job)
       && (c != HERE && s.started[r] == 1 && s.ended[r] == 0 ==> s.pcs[c] == Inside(job))
  }

  ghost predicate CpuOk(s: State, i: nat)
    requires i < |s.cpus| == |s.pcs|
  {
    var c, pc := s.cpus[i], s.pcs[i];
    && Fits(c, pc)
    && (Waiting(c, pc) ==> c.work in s.home && s.home[c.work] == i && s.started[Run(i, c.work)] == 0)
    && (pc.Inside? ==> pc.job in s.home && s.home[pc.job] == i && s.started[Run(i, pc.job)] == 1 && s.ended[Run(i, pc.job)] == 0)
  }

  /** Only what was handed out runs, and only where it was handed to. */
  ghost predicate RunOk(s: State, r: Run) {
    r in s.started || r in s.ended ==> r.job in s.home && s.home[r.job] == r.cpu
  }

  /** No function is pending at CPU i. */
  predicate Quiet(cpus: seq<Cpu>, i: nat)
    requires i < |cpus|
  {
    cpus[i].status != PLEASE_WORK && cpus[i].status != RUNNING
  }

  ghost predicate DispatcherOk(s: State)
    requires |s.cpus| == |s.pcs|
  {
    match s.d
    case SetBspDone => true
    case SetPresend => true
    case Between => true
    case RunHere(job) => s.alone && job in s.home && s.home[job] == HERE && s.ended[Run(HERE, job)] == 0
    case SeekPresend(i, job) => job !in s.home && job < s.calls
    case SeekStatus(i, job) => job !in s.home && job < s.calls && i < |s.cpus|
    case PutFunction(i, job) => job !in s.home && job < s.calls && i < |s.cpus| && s.cpus[i].status == WAIT_FOR_WORK
    case PutStatus(i, job) =>
      job !in s.home && job < s.calls && i < |s.cpus| && s.cpus[i].status == WAIT_FOR_WORK && s.cpus[i].work == job
    case WaitPresend(i) => i <= |s.cpus| && forall k: nat :: k < i ==> Quiet(s.cpus, k)
    case WaitStatus(i) => i < |s.cpus| && forall k: nat :: k < i ==> Quiet(s.cpus, k)
  }

  /** Nothing is in flight: each call of run_on_ap that returned has its function in
      home, and the one under way is the last. */
  ghost predicate CallsOk(s: State) {
    forall j: nat :: j < s.calls ==> j in s.home || InHand(s.d, j)
  }

  predicate InHand(d: Dispatcher, job: nat) {
    match d
    case SeekPresend(_, j) => j == job
    case SeekStatus(_, j) => j == job
    case PutFunction(_, j) => j == job
    case PutStatus(_, j) => j == job
    case _ => false
  }

  ghost predicate Good(s: State) {
    && 0 < |s.cpus| == |s.pcs|
    && (forall i: nat :: i < |s.cpus| ==> CpuOk(s, i))
    && (forall j: nat :: j in s.home ==> JobOk(s, j))
    && (forall r: Run :: RunOk(s, r))
    && DispatcherOk(s)
    && CallsOk(s)
  }

  ghost predicate Initial(s: State) {
    && 0 < |s.cpus| == |s.pcs|
    && (forall i: nat :: i < |s.cpus| ==> s.cpus[i].status == 0 && (s.pcs[i] == NotAp || s.pcs[i] == Boot))
    && !s.bspdone && s.d == SetBspDone && s.calls == 0
    && s.home == map[] && s.started == multiset{} && s.ended == multiset{}
  }

  lemma InitialIsGood(s: State)
    requires Initial(s)
    ensures Good(s)
  {
  }

  // ----- the parts of the invariant -----

  lemma CpuOf(s: State, i: nat)
    requires Good(s) && i < |s.cpus|
    ensures |s.cpus| == |s.pcs| && CpuOk(s, i)
  {
  }

  lemma JobOf(s: State, job: nat)
    requires Good(s) && job in s.home
    ensures |s.cpus| == |s.pcs| && JobOk(s, job)
  {
  }

  lemma RunOf(s: State, r: Run)
    requires Good(s)
    ensures RunOk(s, r)
  {
  }

  lemma DispatcherOf(s: State)
    requires Good(s)
    ensures 0 < |s.cpus| == |s.pcs| && DispatcherOk(s) && CallsOk(s)
  {
  }

  /** A number not handed out yet has not run anywhere. */
  lemma NotRunYet(s: State, job: nat, c: int)
    requires Good(s) && job !in s.home
    ensures s.started[Run(c, job)] == 0 && s.ended[Run(c, job)] == 0
  {
    hide Good;
    RunOf(s, Run(c, job));
  }

  lemma NewNumber(s: State)
    requires Good(s)
    ensures s.calls !in s.home
  {
    hide Good;
    if s.calls in s.home {
      JobOf(s, s.calls);
      assert false;
    }
  }

  lemma CpuFrame(s: State, s': State, k: nat)
    requires k < |s.cpus| == |s.pcs| == |s'.cpus| == |s'.pcs| && CpuOk(s, k)
    requires s'.cpus[k] == s.cpus[k] && s'.pcs[k] == s.pcs[k]
    requires forall j: nat :: j in s.home ==> j in s'.home && s'.home[j] == s.home[j]
    requires forall j: nat :: s'.started[Run(k, j)] == s.started[Run(k, j)] && s'.ended[Run(k, j)] == s.ended[Run(k, j)]
    ensures CpuOk(s', k)
  {
  }

  lemma JobFrame(s: State, s': State, job: nat)
    requires |s.cpus| == |s.pcs| == |s'.cpus| == |s'.pcs| && JobOk(s, job)
    requires job in s'.home && s'.home[job] == s.home[job] && s.calls <= s'.calls
    requires var c := s.home[job]; 0 <= c < |s.cpus| ==> s'.cpus[c] == s.cpus[c] && s'.pcs[c] == s.pcs[c]
    requires var r := Run(s.home[job], job); s'.started[r] == s.started[r] && s'.ended[r] == s.ended[r]
    requires s.d == RunHere(job) ==> s'.d == RunHere(job)
    ensures JobOk(s', job)
  {
  }

  // ----- every step of an application processor keeps it -----

  // What a step of processor i leaves alone.

  lemma ApShape(s: State, i: nat)
    requires i < |s.cpus| == |s.pcs|
    ensures |ApStep(s, i).cpus| == |ApStep(s, i).pcs| == |s.cpus|
    ensures ApStep(s, i).home == s.home && ApStep(s, i).calls == s.calls && ApStep(s, i).d == s.d && ApStep(s, i).alone == s.alone
  {
    hide Plus;
    match s.pcs[i]
    case NotAp =>
    case Boot =>
    case Announce =>
    case WaitBsp =>
    case Poll =>
    case Mark =>
    case Call =>
    case Inside(_) =>
    case Finish =>
  }

  lemma ApEntry(s: State, i: nat, k: nat)
    requires i < |s.cpus| == |s.pcs| && k < |s.cpus| && k != i
    ensures |ApStep(s, i).cpus| == |ApStep(s, i).pcs| == |s.cpus|
    ensures ApStep(s, i).cpus[k] == s.cpus[k] && ApStep(s, i).pcs[k] == s.pcs[k]
  {
    hide Plus;
    match s.pcs[i]
    case NotAp =>
    case Boot =>
    case Announce =>
    case WaitBsp =>
    case Poll =>
    case Mark =>
    case Call =>
    case Inside(_) =>
    case Finish =>
  }

  lemma ApCounts(s: State, i: nat, r: Run)
    requires i < |s.cpus| == |s.pcs| && r.cpu != i
    ensures ApStep(s, i).started[r] == s.started[r] && ApStep(s, i).ended[r] == s.ended[r]
  {
    hide Plus;
    match s.pcs[i]
    case NotAp =>
    case Boot =>
    case Announce =>
    case WaitBsp =>
    case Poll =>
    case Mark =>
    case Call =>
    case Inside(_) =>
    case Finish =>
  }

  lemma ApKeepsCpu(s: State, i: nat, k: nat)
    requires Good(s) && i < |s.cpus| && k < |s.cpus|
    ensures |ApStep(s, i).cpus| == |ApStep(s, i).pcs| == |s.cpus| == |s.pcs|
    ensures CpuOk(ApStep(s, i), k)
  {
    hide Good, CpuOk, ApStep;
    CpuOf(s, k);
    ApShape(s, i);
    if k != i {
      var s' := ApStep(s, i);
      ApEntry(s, i, k);
      forall j: nat ensures s'.started[Run(k, j)] == s.started[Run(k, j)] && s'.ended[Run(k, j)] == s.ended[Run(k, j)] {
        ApCounts(s, i, Run(k, j));
      }
      CpuFrame(s, s', k);
    } else {
      ApKeepsItself(s, i);
    }
  }

  lemma ApKeepsItself(s: State, i: nat)
    requires Good(s) && i < |s.cpus| == |s.pcs|
    ensures i < |ApStep(s, i).cpus| == |ApStep(s, i).pcs| && CpuOk(ApStep(s, i), i)
  {
    hide Good, JobOk, Plus;
    CpuOf(s, i);
    if s.pcs[i] == Call { StartsOnce(s, i); }
  }

  lemma StartsOnce(s: State, i: nat)
    requires Good(s) && i < |s.cpus| == |s.pcs| && s.pcs[i] == Call
    ensures var r := Run(i, s.cpus[i].work); s.started[r] == 0 && s.ended[r] == 0
  {
    hide Good;
    CpuOf(s, i);
    JobOf(s, s.cpus[i].work);
  }

  lemma ApKeepsJob(s: State, i: nat, job: nat)
    requires Good(s) && i < |s.cpus| && job in s.home
    ensures |ApStep(s, i).cpus| == |ApStep(s, i).pcs| == |s.cpus| == |s.pcs|
    ensures JobOk(ApStep(s, i), job)
  {
    hide Good, JobOk, ApStep;
    JobOf(s, job);
    ApShape(s, i);
    if s.home[job] != i {
      JobInside(s, job);
      if s.home[job] != HERE { ApEntry(s, i, s.home[job]); }
      ApCounts(s, i, Run(s.home[job], job));
      JobFrame(s, ApStep(s, i), job);
    } else {
      ApKeepsItsJob(s, i, job);
    }
  }

  lemma JobInside(s: State, job: nat)
    requires |s.cpus| == |s.pcs| && JobOk(s, job)
    ensures job in s.home && (s.home[job] == HERE || 0 <= s.home[job] < |s.cpus|)
  {
  }

  lemma ApKeepsItsJob(s: State, i: nat, job: nat)
    requires Good(s) && i < |s.cpus| == |s.pcs| && job in s.home && s.home[job] == i
    ensures |ApStep(s, i).cpus| == |ApStep(s, i).pcs| && JobOk(ApStep(s, i), job)
  {
    hide Good, Plus;
    JobOf(s, job);
    CpuOf(s, i);
    match s.pcs[i]
    case NotAp =>
    case Boot =>
    case Announce =>
    case WaitBsp =>
    case Poll =>
    case Mark =>
    case Call =>
    case Inside(_) =>
    case Finish =>
  }

  lemma ApKeepsRuns(s: State, i: nat, r: Run)
    requires Good(s) && i < |s.cpus| == |s.pcs|
    ensures RunOk(ApStep(s, i), r)
  {
    hide Good;
    RunOf(s, r);
    CpuOf(s, i);
  }

  lemma ApKeepsDispatcher(s: State, i: nat)
    requires Good(s) && i < |s.cpus|
    ensures |ApStep(s, i).cpus| == |ApStep(s, i).pcs| == |s.cpus| == |s.pcs|
    ensures DispatcherOk(ApStep(s, i)) && CallsOk(ApStep(s, i))
  {
    hide Good, ApStep, CpuOk, JobOk;
    DispatcherOf(s);
    CpuOf(s, i);
    ApShape(s, i);
    ApStepIsPolite(s, i);
    match s.d
    case PutFunction(k, _) => if k != i { ApEntry(s, i, k); }
    case PutStatus(k, _) => if k != i { ApEntry(s, i, k); }
    case RunHere(job) => ApCounts(s, i, Run(HERE, job));
    case WaitPresend(n) => StaysQuiet(s, i, n);
    case WaitStatus(n) => StaysQuiet(s, i, n);
    case _ =>
  }

  /** A CPU that waits for work keeps its status, and a quiet one stays quiet. */
  lemma ApStepIsPolite(s: State, i: nat)
    requires i < |s.cpus| == |s.pcs| && CpuOk(s, i)
    ensures ApStep(s, i).cpus[i].work == s.cpus[i].work
    ensures s.cpus[i].status == WAIT_FOR_WORK ==> ApStep(s, i).cpus[i].status == WAIT_FOR_WORK
    ensures Quiet(s.cpus, i) ==> Quiet(ApStep(s, i).cpus, i)
  {
    match s.pcs[i]
    case NotAp =>
    case Boot =>
    case Announce =>
    case WaitBsp =>
    case Poll =>
    case Mark =>
    case Call =>
    case Inside(_) =>
    case Finish =>
  }

  lemma StaysQuiet(s: State, i: nat, n: nat)
    requires i < |s.cpus| == |s.pcs| && CpuOk(s, i) && n <= |s.cpus| && forall k: nat :: k < n ==> Quiet(s.cpus, k)
    ensures |ApStep(s, i).cpus| == |s.cpus| && forall k: nat :: k < n ==> Quiet(ApStep(s, i).cpus, k)
  {
    hide CpuOk, ApStep;
    ApShape(s, i);
    ApStepIsPolite(s, i);
    forall k: nat | k < n ensures Quiet(ApStep(s, i).cpus, k) {
      assert Quiet(s.cpus, k);
      if k != i { ApEntry(s, i, k); }
    }
  }

  lemma ApKeepsGood(s: State, i: nat)
    requires Good(s) && i < |s.cpus|
    ensures Good(ApStep(s, i))
  {
    hide CpuOk, JobOk, RunOk, DispatcherOk, CallsOk;
    ApKeepsDispatcher(s, i);
    var s' := ApStep(s, i);
    forall k: nat | k < |s'.cpus| ensures CpuOk(s', k) { ApKeepsCpu(s, i, k); }
    forall j: nat | j in s'.home ensures JobOk(s', j) { ApKeepsJob(s, i, j); }
    forall r: Run ensures RunOk(s', r) { ApKeepsRuns(s, i, r); }
  }

  // ----- every step of the dispatcher keeps it -----

  lemma HandedTo(s: State, i: nat, job: nat)
    requires Good(s) && s.d == PutStatus(i, job)
    ensures i < |s.cpus| == |s.pcs| && s.cpus[i].status == WAIT_FOR_WORK && s.cpus[i].work == job && job !in s.home && job < s.calls
    ensures (s.pcs[i] == WaitBsp || s.pcs[i] == Poll) && s.cpus[i].presend
    ensures s.started[Run(i, job)] == 0 && s.ended[Run(i, job)] == 0
    ensures forall j: nat :: j in s.home && s.home[j] == i ==> s.ended[Run(i, j)] == s.started[Run(i, j)] == 1
  {
    hide Good;
    DispatcherOf(s);
    CpuOf(s, i);
    NotRunYet(s, job, i);
    forall j: nat | j in s.home && s.home[j] == i ensures s.ended[Run(i, j)] == s.started[Run(i, j)] == 1 { JobOf(s, j); }
  }

  /** The CPU whose entry the step writes, if any. */
  function Touched(s: State): int {
    match s.d
    case PutStatus(i, _) => i
    case PutFunction(i, _) => i
    case SetPresend => 0
    case _ => HERE
  }

  // What a step of the dispatcher leaves alone.

  lemma BossShape(s: State, next: Next)
    requires 0 < |s.cpus| == |s.pcs| && DispatcherOk(s)
    ensures |DispatcherStep(s, next).cpus| == |s.cpus| && DispatcherStep(s, next).pcs == s.pcs
    ensures s.calls <= DispatcherStep(s, next).calls
  {
    hide Plus;
    match s.d
    case SetBspDone =>
    case SetPresend =>
    case Between =>
    case SeekPresend(_, _) =>
    case SeekStatus(_, _) =>
    case PutFunction(_, _) =>
    case PutStatus(_, _) =>
    case RunHere(_) =>
    case WaitPresend(_) =>
    case WaitStatus(_) =>
  }

  lemma BossHome(s: State, next: Next, job: nat)
    requires 0 < |s.cpus| == |s.pcs| && DispatcherOk(s) && s.calls !in s.home && job in s.home
    ensures job in DispatcherStep(s, next).home && DispatcherStep(s, next).home[job] == s.home[job]
  {
    hide Plus;
    match s.d
    case SetBspDone =>
    case SetPresend =>
    case Between =>
    case SeekPresend(_, _) =>
    case SeekStatus(_, _) =>
    case PutFunction(_, _) =>
    case PutStatus(_, _) =>
    case RunHere(_) =>
    case WaitPresend(_) =>
    case WaitStatus(_) =>
  }

  lemma BossEntry(s: State, next: Next, k: nat)
    requires 0 < |s.cpus| == |s.pcs| && DispatcherOk(s) && k < |s.cpus| && k != Touched(s)
    ensures |DispatcherStep(s, next).cpus| == |s.cpus| && DispatcherStep(s, next).cpus[k] == s.cpus[k]
  {
    hide Plus;
    match s.d
    case SetBspDone =>
    case SetPresend =>
    case Between =>
    case SeekPresend(_, _) =>
    case SeekStatus(_, _) =>
    case PutFunction(_, _) =>
    case PutStatus(_, _) =>
    case RunHere(_) =>
    case WaitPresend(_) =>
    case WaitStatus(_) =>
  }

  lemma BossCounts(s: State, next: Next, r: Run)
    requires 0 < |s.cpus| == |s.pcs| && DispatcherOk(s) && s.calls !in s.home
    requires r.cpu != HERE || (r.job in s.home && s.d != RunHere(r.job))
    ensures DispatcherStep(s, next).started[r] == s.started[r] && DispatcherStep(s, next).ended[r] == s.ended[r]
  {
    hide Plus;
    match s.d
    case SetBspDone =>
    case SetPresend =>
    case Between =>
    case SeekPresend(_, _) =>
    case SeekStatus(_, _) =>
    case PutFunction(_, _) =>
    case PutStatus(_, _) =>
    case RunHere(_) =>
    case WaitPresend(_) =>
    case WaitStatus(_) =>
  }

  lemma DispatcherKeepsCpu(s: State, next: Next, k: nat)
    requires Good(s) && k < |s.cpus|
    ensures |DispatcherStep(s, next).cpus| == |DispatcherStep(s, next).pcs| == |s.cpus| == |s.pcs|
    ensures CpuOk(DispatcherStep(s, next), k)
  {
    hide Good, CpuOk, DispatcherStep, DispatcherOk, CallsOk, Touched;
    DispatcherOf(s);
    CpuOf(s, k);
    NewNumber(s);
    BossShape(s, next);
    if k != Touched(s) {
      var s' := DispatcherStep(s, next);
      BossEntry(s, next, k);
      forall j: nat ensures s'.started[Run(k, j)] == s.started[Run(k, j)] && s'.ended[Run(k, j)] == s.ended[Run(k, j)] {
        BossCounts(s, next, Run(k, j));
      }
      forall j: nat | j in s.home ensures j in s'.home && s'.home[j] == s.home[j] { BossHome(s, next, j); }
      CpuFrame(s, s', k);
    } else {
      DispatcherKeepsTouched(s, next, k);
    }
  }

  lemma DispatcherKeepsTouched(s: State, next: Next, k: nat)
    requires Good(s) && k < |s.cpus| == |s.pcs| && k == Touched(s)
    ensures k < |DispatcherStep(s, next).cpus| == |DispatcherStep(s, next).pcs| && CpuOk(DispatcherStep(s, next), k)
  {
    hide Good, Plus, CallsOk;
    DispatcherOf(s);
    CpuOf(s, k);
    if s.d.PutStatus? { HandedTo(s, k, s.d.job); }
  }

  lemma DispatcherKeepsJob(s: State, next: Next, job: nat)
    requires Good(s) && job in s.home
    ensures |DispatcherStep(s, next).cpus| == |DispatcherStep(s, next).pcs| == |s.cpus| == |s.pcs|
    ensures JobOk(DispatcherStep(s, next), job)
  {
    hide Good, CpuOk, JobOk, DispatcherOk, CallsOk, DispatcherStep, Touched;
    DispatcherOf(s);
    JobOf(s, job);
    NewNumber(s);
    BossShape(s, next);
    if s.d.RunHere? || s.home[job] == Touched(s) {
      DispatcherKeepsTouchedJob(s, next, job);
    } else {
      JobInside(s, job);
      if s.home[job] != HERE { BossEntry(s, next, s.home[job]); }
      BossCounts(s, next, Run(s.home[job], job));
      BossHome(s, next, job);
      JobFrame(s, DispatcherStep(s, next), job);
    }
  }

  lemma DispatcherKeepsTouchedJob(s: State, next: Next, job: nat)
    requires Good(s) && job in s.home && (s.d.RunHere? || s.home[job] == Touched(s)) && |s.cpus| == |s.pcs|
    ensures |DispatcherStep(s, next).cpus| == |DispatcherStep(s, next).pcs| && JobOk(DispatcherStep(s, next), job)
  {
    hide DispatcherOk;
    hide Good, Plus, CallsOk, CpuOk;
    DispatcherOf(s);
    JobOf(s, job);
    NewNumber(s);
    if s.d.PutStatus? { HandedTo(s, s.d.i, s.d.job); }
    if s.d.PutFunction? { IdleHasNone(s, s.d.i, job); }
  }

  /** A CPU that waits for work has finished every function it was given. */
  lemma IdleHasNone(s: State, i: nat, job: nat)
    requires Good(s) && i < |s.cpus| && s.cpus[i].status == WAIT_FOR_WORK && job in s.home && s.home[job] == i
    ensures s.ended[Run(i, job)] == s.started[Run(i, job)] == 1
  {
    hide Good;
    CpuOf(s, i);
    JobOf(s, job);
  }

  /** The function that the step hands out, if any. */
  lemma DispatcherKeepsNewJob(s: State, next: Next, job: nat)
    requires Good(s) && job !in s.home && job in DispatcherStep(s, next).home
    ensures |DispatcherStep(s, next).cpus| == |DispatcherStep(s, next).pcs|
    ensures JobOk(DispatcherStep(s, next), job)
  {
    hide Good, CpuOk;
    DispatcherOf(s);
    NotRunYet(s, job, HERE);
    if s.d.PutStatus? { HandedTo(s, s.d.i, s.d.job); }
  }

  lemma DispatcherKeepsRuns(s: State, next: Next, r: Run)
    requires Good(s)
    ensures RunOk(DispatcherStep(s, next), r)
  {
    hide Good, CpuOk, JobOk;
    DispatcherOf(s);
    RunOf(s, r);
    NewNumber(s);
  }

  lemma DispatcherStaysOk(s: State, next: Next)
    requires Good(s)
    ensures |DispatcherStep(s, next).cpus| == |DispatcherStep(s, next).pcs| == |s.cpus| == |s.pcs|
    ensures DispatcherOk(DispatcherStep(s, next))
  {
    hide Good, DispatcherStep, DispatcherOk, CallsOk;
    DispatcherOf(s);
    BossShape(s, next);
    if s.d.WaitPresend? || s.d.WaitStatus? {
      WaitStaysOk(s, next);
    } else {
      CallStaysOk(s, next);
    }
  }

  lemma CallStaysOk(s: State, next: Next)
    requires Good(s) && |s.cpus| == |s.pcs| && !s.d.WaitPresend? && !s.d.WaitStatus?
    ensures |DispatcherStep(s, next).cpus| == |DispatcherStep(s, next).pcs| && DispatcherOk(DispatcherStep(s, next))
  {
    hide Good, CallsOk, Plus, Quiet;
    DispatcherOf(s);
    NewNumber(s);
    NotRunYet(s, s.calls, HERE);
  }

  lemma WaitStaysOk(s: State, next: Next)
    requires Good(s) && |s.cpus| == |s.pcs| && (s.d.WaitPresend? || s.d.WaitStatus?)
    ensures |DispatcherStep(s, next).cpus| == |DispatcherStep(s, next).pcs| && DispatcherOk(DispatcherStep(s, next))
  {
    hide Good, CallsOk;
    DispatcherOf(s);
    if s.d.WaitPresend? && s.d.i < |s.cpus| && !s.cpus[s.d.i].presend { AbsentIsQuiet(s, s.d.i); }
  }

  lemma AbsentIsQuiet(s: State, i: nat)
    requires Good(s) && i < |s.cpus| && !s.cpus[i].presend
    ensures Quiet(s.cpus, i)
  {
    hide Good;
    CpuOf(s, i);
  }

  lemma DispatcherKeepsCalls(s: State, next: Next)
    requires Good(s)
    ensures CallsOk(DispatcherStep(s, next))
  {
    hide Good, CpuOk, JobOk;
    DispatcherOf(s);
  }

  lemma DispatcherKeepsGood(s: State, next: Next)
    requires Good(s)
    ensures Good(DispatcherStep(s, next))
  {
    hide CpuOk, JobOk, RunOk, DispatcherOk, CallsOk, DispatcherStep;
    DispatcherStaysOk(s, next);
    DispatcherKeepsCalls(s, next);
    var s' := DispatcherStep(s, next);
    forall k: nat | k < |s'.cpus| ensures CpuOk(s', k) { DispatcherKeepsCpu(s, next, k); }
    forall j: nat | j in s'.home ensures JobOk(s', j) {
      if j in s.home { DispatcherKeepsJob(s, next, j); } else { DispatcherKeepsNewJob(s, next, j); }
    }
    forall r: Run ensures RunOk(s', r) { DispatcherKeepsRuns(s, next, r); }
  }

  // ----- runs -----

  datatype Move = Ap(i: nat) | Boss(next: Next)

  function Moved(s: State, m: Move): State
    requires 0 < |s.cpus| == |s.pcs|
  {
    match m
    case Ap(i) => if i < |s.cpus| then ApStep(s, i) else s
    case Boss(next) => DispatcherStep(s, next)
  }

  lemma MoveKeepsGood(s: State, m: Move)
    requires Good(s)
    ensures Good(Moved(s, m))
  {
    match m
    case Ap(i) => if i < |s.cpus| { ApKeepsGood(s, i); }
    case Boss(next) => DispatcherKeepsGood(s, next);
  }

  /** The state after any interleaving of steps. */
  ghost function After(s: State, moves: seq<Move>): (e: State)
    requires Initial(s)
    ensures Good(e)
    decreases |moves|
  {
    if moves == [] then
      InitialIsGood(s);
      s
    else
      var prev := After(s, moves[..|moves| - 1]);
      MoveKeepsGood(prev, moves[|moves| - 1]);
      Moved(prev, moves[|moves| - 1])
  }

  /** Under every interleaving each function given to run_on_ap is executed at most
      once, by the CPU that run_on_ap returned, and nothing else is executed. */
  lemma ExecutedOnceByChosenCpu(s: State, moves: seq<Move>, r: Run)
    requires Initial(s)
    ensures var e := After(s, moves);
      && e.ended[r] <= e.started[r] <= 1
      && (e.started[r] == 1 ==> r.job in e.home && e.home[r.job] == r.cpu)
  {
    var e := After(s, moves);
    assert RunOk(e, r);
    if r.job in e.home { assert JobOk(e, r.job); }
  }

  /** No step overwrites the function of a CPU whose last one has not started. */
  lemma NeverOverwritten(s: State, moves: seq<Move>, m: Move, k: nat)
    requires Initial(s) && k < |After(s, moves).cpus|
    ensures var e := After(s, moves);
      && |Moved(e, m).cpus| == |e.cpus| == |e.pcs|
      && (Moved(e, m).cpus[k].work != e.cpus[k].work ==> !Waiting(e.cpus[k], e.pcs[k]))
  {
    hide Good, ApStep, DispatcherStep, After, DispatcherOk, CallsOk, CpuOk, Waiting;
    var e := After(s, moves);
    CpuOf(e, k);
    DispatcherOf(e);
    match m
    case Ap(i) =>
      if i < |e.cpus| {
        ApShape(e, i);
        if k == i { ApStepIsPolite(e, i); } else { ApEntry(e, i, k); }
      }
    case Boss(next) =>
      BossShape(e, next);
      WritesOnlyIdle(e, next, k);
  }

  lemma WritesOnlyIdle(s: State, next: Next, k: nat)
    requires |s.cpus| == |s.pcs| && k < |s.cpus| && DispatcherOk(s) && CpuOk(s, k)
    ensures k < |DispatcherStep(s, next).cpus|
    ensures DispatcherStep(s, next).cpus[k].work != s.cpus[k].work ==> !Waiting(s.cpus[k], s.pcs[k])
  {
    hide Plus;
    match s.d
    case SetBspDone =>
    case SetPresend =>
    case Between =>
    case SeekPresend(_, _) =>
    case SeekStatus(_, _) =>
    case PutFunction(_, _) =>
    case PutStatus(_, _) =>
    case RunHere(_) =>
    case WaitPresend(_) =>
    case WaitStatus(_) =>
  }

  /** When wait_for_aps returns, every function given to run_on_ap so far has been
      executed, exactly once, and has finished. */
  lemma WaitedForAll(s: State, moves: seq<Move>, next: Next, job: nat)
    requires Initial(s)
    requires var e := After(s, moves);
      e.d.WaitPresend? && DispatcherStep(e, next).d == Between && job < e.calls
    ensures var e := After(s, moves);
      && job in e.home
      && e.started[Run(e.home[job], job)] == 1 && e.ended[Run(e.home[job], job)] == 1
      && forall c: int :: c != e.home[job] ==> e.started[Run(c, job)] == 0
  {
    var e := After(s, moves);
    assert job in e.home;
    assert JobOk(e, job);
    var c := e.home[job];
    if c != HERE { assert CpuOk(e, c) && Quiet(e.cpus, c); }
    forall x: int | x != c ensures e.started[Run(x, job)] == 0 { assert RunOk(e, Run(x, job)); }
  }

  /** With one core, or multiprocessor scheduling off, run_on_ap runs the function
      itself and returns -1; otherwise it returns an application processor. */
  lemma RunsHereOnlyAlone(s: State, next: Next)
    requires Good(s) && s.d == Between && next == RunOnAp
    ensures s.alone ==> DispatcherStep(s, next).home == s.home[s.calls := HERE]
    ensures s.alone ==> DispatcherStep(s, next).started[Run(HERE, s.calls)] == 1
    ensures !s.alone ==> DispatcherStep(s, next).home == s.home && DispatcherStep(s, next).d == SeekPresend(0, s.calls)
  {
    NewNumber(s);
    NotRunYet(s, s.calls, HERE);
  }
}

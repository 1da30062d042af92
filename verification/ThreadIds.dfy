/** The ids of threads: as long as the counter has not come round, no two threads have the same one. */
module ThreadIds {
  import opened Align
  import opened PageTree
  import opened SpaceLife
  import opened Threads
  import opened ThreadLaws
  import opened ThreadRuns
  import opened ThreadSteps
  import opened KernelStacks

  /** Threads have different ids, all of them given out already. */
  predicate Numbered(s: Sched) {
    && (forall i :: 0 <= i < |s.threads| && s.threads[i].status != Unused ==> s.threads[i].id < s.nextId)
    && (forall i, j :: 0 <= i < j < |s.threads| && s.threads[i].status != Unused && s.threads[j].status != Unused ==>
          s.threads[i].id != s.threads[j].id)
  }

  predicate SameIds(ts: seq<Thread>, ts': seq<Thread>) {
    |ts'| == |ts| && forall i :: 0 <= i < |ts| ==> ts'[i].id == ts[i].id
  }

  lemma ZombieIds(ts: seq<Thread>, i: nat, code: int)
    requires i < |ts|
    ensures SameIds(ts, MarkZombie(ts, i, code))
  {
  }

  lemma SwitchIds(s: Sched, cpu: nat, n: nat)
    requires On(s, cpu) && n < MAX_THREADS
    ensures SameIds(s.threads, Switch(s, cpu, n).threads) && Switch(s, cpu, n).nextId == s.nextId
  {
  }

  predicate SpaceStep(op: Op) {
    op.NewSpace? || op.DropSpace? || op.Touch? || op.Stored? || op.ExecStack?
  }

  lemma SpaceIds(w: World, op: Op)
    requires Shaped(w.s) && |w.boot| == MAX_CPUS && Enabled(w, op) && SpaceStep(op)
    ensures Step(w, op).s.threads == w.s.threads && Step(w, op).s.nextId == w.s.nextId
  {
  }

  lemma KillIds(s: Sched, cpu: nat, pid: int, sig: int)
    requires On(s, cpu)
    ensures SameIds(s.threads, Kill(s, cpu, pid, sig).0.threads) && Kill(s, cpu, pid, sig).0.nextId == s.nextId
  {
    var k := FindId(s.threads, pid);
    if k < MAX_THREADS { ZombieIds(s.threads, k, -sig); }
  }

  /** The steps that make no thread keep every thread's id. */
  lemma QuietIds(w: World, op: Op)
    requires Shaped(w.s) && |w.boot| == MAX_CPUS && Enabled(w, op)
    requires !op.Forked? && !op.Created? && !op.Registered? && !op.Exited? && !op.Ticked?
    ensures SameIds(w.s.threads, Step(w, op).s.threads) && Step(w, op).s.nextId == w.s.nextId
  {
    if SpaceStep(op) {
      SpaceIds(w, op);
    } else {
      match op {
        case Killed(cpu, pid, sig) => KillIds(w.s, cpu, pid, sig);
        case Slept(_, _) =>
        case WaitedFor(_, _) =>
        case Execed(_, _) =>
      }
    }
  }

  lemma SwitchingIds(w: World, op: Op)
    requires Shaped(w.s) && |w.boot| == MAX_CPUS && Enabled(w, op) && (op.Exited? || op.Ticked?)
    ensures SameIds(w.s.threads, Step(w, op).s.threads) && Step(w, op).s.nextId == w.s.nextId
  {
    match op {
      case Ticked(cpu, now) =>
        var ts := Wake(w.s.threads, now);
        SwitchIds(w.s.(threads := ts), cpu, PickNext(ts, w.s.current[cpu], cpu));
      case Exited(cpu, code) =>
        var i := Cur(w.s, cpu);
        var ts := MarkZombie(w.s.threads, i, code);
        ZombieIds(w.s.threads, i, code);
        var n := PickNext(ts, w.s.current[cpu], cpu);
        SwitchIds(w.s.(threads := ts), cpu, if n == i then 0 else n);
    }
  }

  lemma KeptNumbered(s: Sched, t: Sched, k: nat)
    requires Numbered(s) && SameIds(s.threads, t.threads) && t.nextId == s.nextId && SameSlots(s.threads, t.threads, k)
    requires k < |t.threads| ==> t.threads[k].status == Unused
    ensures Numbered(t)
  {
  }

  lemma FilledNumbered(s: Sched, t: Sched, p: nat, k: nat, made: Thread)
    requires Numbered(s) && p < |s.threads| && s.threads[p].status != Unused && Filled(s.threads, t.threads, p, k, made)
    requires made.id == s.nextId && t.nextId == s.nextId + 1
    ensures Numbered(t)
  {
  }

  /** A step gives out one id at most, and a new one. */
  lemma StepNumbered(w: World, op: Op)
    requires Orderly(w) && Enabled(w, op) && Numbered(w.s) && w.s.nextId + 1 < TWO64
    ensures Numbered(Step(w, op).s) && w.s.nextId <= Step(w, op).s.nextId <= w.s.nextId + 1
  {
    var t := Step(w, op).s;
    match op {
      case Forked(cpu, filesOk, stackOk) => ForkNumbered(w, cpu, filesOk, stackOk);
      case Created(cpu, online, user, cr3, kstackOk) => CreateNumbered(w, cpu, online, user, cr3, kstackOk);
      case Registered(cpu) => RegisterNumbered(w, cpu);
      case WaitedFor(cpu, pid) =>
        QuietIds(w, op);
        WaitSlots(w, cpu, pid);
        KeptNumbered(w.s, t, FindChild(w.s.threads, Cur(w.s, cpu), pid, true));
      case _ =>
        if op.Exited? || op.Ticked? { SwitchingIds(w, op); } else { QuietIds(w, op); }
        QuietSlots(w, op);
        KeptNumbered(w.s, t, MAX_THREADS);
    }
  }

  lemma ForkNumbered(w: World, cpu: nat, filesOk: bool, stackOk: bool)
    requires Orderly(w) && On(w.s, cpu) && Numbered(w.s) && w.s.nextId + 1 < TWO64
    ensures var t := Fork(w.s, cpu, filesOk, stackOk).0; Numbered(t) && w.s.nextId <= t.nextId <= w.s.nextId + 1
  {
    var t := Fork(w.s, cpu, filesOk, stackOk).0;
    var k := ForkExact(w.s, w.boot, cpu, filesOk, stackOk);
    assert CpuOk(w.s, w.boot, cpu);
    if t != w.s { FilledNumbered(w.s, t, Cur(w.s, cpu), k, t.threads[k]); }
  }

  lemma CreateNumbered(w: World, cpu: nat, online: nat, user: bool, cr3: nat, kstackOk: bool)
    requires Orderly(w) && On(w.s, cpu) && Numbered(w.s) && w.s.nextId + 1 < TWO64
    ensures var t := Create(w.s, cpu, online, user, cr3, kstackOk).0; Numbered(t) && w.s.nextId <= t.nextId <= w.s.nextId + 1
  {
    var t := Create(w.s, cpu, online, user, cr3, kstackOk).0;
    var k := CreateMakes(w.s, w.boot, cpu, online, user, cr3, kstackOk);
    assert CpuOk(w.s, w.boot, cpu);
    if k < MAX_THREADS { FilledNumbered(w.s, t, Cur(w.s, cpu), k, t.threads[k]); }
  }

  lemma RegisterNumbered(w: World, cpu: nat)
    requires Orderly(w) && cpu < MAX_CPUS && Numbered(w.s) && w.s.nextId + 1 < TWO64
    ensures var t := RegisterCpu(w.s, cpu); Numbered(t) && w.s.nextId <= t.nextId <= w.s.nextId + 1
  {
    var k := RegisterExact(w.s, cpu);
  }

  lemma {:induction false} RunNumbered(w: World, roles: Roles, ops: seq<Op>)
    requires Safe(w, roles) && w.s.kernel != 0 && ThreadRuns.Allowed(w, ops) && Numbered(w.s) && w.s.nextId + |ops| < TWO64
    ensures Numbered(Run(w, ops).s) && Run(w, ops).s.nextId <= w.s.nextId + |ops|
    decreases |ops|
  {
    if ops != [] {
      StepNumbered(w, ops[0]);
      var after := StepSafe(w, roles, ops[0]);
      RunNumbered(Step(w, ops[0]), after, ops[1..]);
    }
  }

  /** The pid is the id of one thread and of no other. */
  ghost predicate PidsDistinct(s: Sched) {
    && (forall i :: 0 <= i < |s.threads| && s.threads[i].status != Unused ==> Pid(s.threads[i]) == s.threads[i].id)
    && (forall i, j :: 0 <= i < j < |s.threads| && s.threads[i].status != Unused && s.threads[j].status != Unused ==>
          Pid(s.threads[i]) != Pid(s.threads[j]))
  }

  /** Two threads go by one pid exactly if their ids are a multiple of 2^32 apart, as 1 and 2^32 + 1 are; a pid is
      the id itself exactly for ids below 2^31. */
  lemma SamePid(t: Thread, u: Thread)
    ensures Pid(t) == Pid(u) <==> (t.id - u.id) % TWO32 == 0
    ensures Pid(t) == t.id <==> t.id < TWO32 / 2
    ensures Pid(t.(id := 1)) == Pid(t.(id := TWO32 + 1))
  {
    PidIs(t);
    PidIs(u);
  }

  /** Over every run from boot of fewer than 2^31 - 1 steps, `waitpid` and `kill` mean one thread by a pid. */
  lemma EveryRunPids(vm: Vm, kernel: nat, ops: seq<Op>)
    requires VmInv(vm, map[], kernel) && kernel != 0 && forall i :: 0 <= i < |vm.table| ==> vm.table[i].refs == 0
    requires ThreadRuns.Allowed(Boot(vm, kernel), ops) && |ops| + 1 < TWO32 / 2
    ensures PidsDistinct(Run(Boot(vm, kernel), ops).s)
  {
    BootSafe(vm, kernel);
    BootNumbered(vm, kernel);
    RunNumbered(Boot(vm, kernel), map[], ops);
    NumberedPids(Run(Boot(vm, kernel), ops).s);
  }

  lemma BootNumbered(vm: Vm, kernel: nat)
    ensures Numbered(Boot(vm, kernel).s) && Boot(vm, kernel).s.nextId == 1
  {
  }

  lemma NumberedPids(s: Sched)
    requires Numbered(s) && s.nextId < TWO32 / 2
    ensures PidsDistinct(s)
  {
    forall i | 0 <= i < |s.threads| && s.threads[i].status != Unused ensures Pid(s.threads[i]) == s.threads[i].id {}
  }
}

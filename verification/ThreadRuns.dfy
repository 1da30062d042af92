/** Every run of the scheduler is safe. */
module ThreadRuns {
  import opened Basics
  import opened Paging
  import opened PageTree
  import opened Spaces
  import opened Contents
  import opened SpaceTable
  import opened SpaceLife
  import opened StackOps
  import opened Threads
  import opened ThreadLaws

  /** The steps. `NewSpace`, `DropSpace` and `Touch` are the calls of `vmm_create_user_space`,
      `vmm_release_user_space` and of the mapping functions by whoever has a space in hand: boot,
      `SYS_execve` before its hand-over, `SYS_brk` and `SYS_mmap`. `Stored` is a page written, by the
      program or for it by the loader; `ExecStack` is the stack of `SYS_execve`, or the end of the new
      space if it cannot have one. */
  datatype Op =
    | Ticked(cpu: nat, now: nat)
    | Forked(cpu: nat, filesOk: bool, stackOk: bool)
    | Exited(cpu: nat, code: int)
    | Killed(cpu: nat, pid: int, sig: int)
    | Slept(cpu: nat, until: nat)
    | WaitedFor(cpu: nat, pid: int)
    | Registered(cpu: nat)
    | Created(cpu: nat, online: nat, user: bool, cr3: nat, kstackOk: bool)
    | Execed(cpu: nat, cr3: nat)
    | NewSpace
    | DropSpace(cr3: nat)
    | Touch(cr3: nat, op: PageOp)
    | Stored(cr3: nat, v: nat, bytes: Bytes)
    | ExecStack(cr3: nat)

  /** A kill that ends a thread while another processor runs it. */
  predicate KillsRunning(s: Sched, cpu: nat, pid: int)
    requires On(s, cpu)
  {
    var k := FindId(s.threads, pid);
    && k < MAX_THREADS && s.threads[k].user && k != Cur(s, cpu) && s.threads[k].status != Zombie
    && exists c :: 0 <= c < MAX_CPUS && c != cpu && s.current[c] == Some(k)
  }

  /** A creation that maps part of the new user stack and then fails. */
  ghost predicate StackStops(s: Sched, user: bool, cr3: nat, kstackOk: bool)
    requires Shaped(s)
  {
    FindUnused(s.threads) < MAX_THREADS && user && cr3 != 0 && kstackOk && !Clean(s.vm.phys, cr3)
  }

  /** What the callers keep to: a bootstrap thread does not sleep, wait or exit; nobody is killed
      while another processor runs it; a processor registers once; a new thread gets a space that was
      made for it, in which its stack can be mapped as a whole or not at all; execve is for user
      threads; only existing spaces are used. */
  ghost predicate Enabled(w: World, op: Op)
    requires Shaped(w.s) && |w.boot| == MAX_CPUS
  {
    match op
    case Ticked(cpu, _) => On(w.s, cpu)
    case Forked(cpu, _, _) => On(w.s, cpu)
    case Exited(cpu, _) => On(w.s, cpu) && w.s.current[cpu] != w.boot[cpu]
    case Killed(cpu, pid, _) => On(w.s, cpu) && !KillsRunning(w.s, cpu, pid)
    case Slept(cpu, _) => On(w.s, cpu) && w.s.current[cpu] != w.boot[cpu]
    case WaitedFor(cpu, _) => On(w.s, cpu) && w.s.current[cpu] != w.boot[cpu]
    case Registered(cpu) => cpu < MAX_CPUS && w.s.current[cpu].None?
    case Created(cpu, _, user, cr3, kstackOk) =>
      && On(w.s, cpu) && (if user then cr3 == 0 || cr3 in w.held else cr3 == w.s.kernel)
      && !StackStops(w.s, user, cr3, kstackOk)
    case Execed(cpu, cr3) => On(w.s, cpu) && w.s.threads[Cur(w.s, cpu)].user && cr3 in w.held
    case NewSpace => true
    case DropSpace(cr3) => cr3 in w.held
    case Touch(cr3, op) => Refs(w.s.vm.table, cr3) > 0 && UserPage(op.v)
    case Stored(cr3, v, _) => Refs(w.s.vm.table, cr3) > 0 && UserPage(v)
    case ExecStack(cr3) => cr3 in w.held && Refs(w.s.vm.table, cr3) == 1
  }

  /** The page's bytes replaced, if it is there. */
  function Store(s: Phys, root: nat, v: nat, bytes: Bytes): Phys {
    match Lookup(s.mem, root, PathOf(v))
    case None => s
    case Some(e) => if e.frame < |s.mem| then Phys(s.used, s.mem[e.frame := Data(bytes)]) else s
  }

  function AfterCreate(w: World, cpu: nat, online: nat, user: bool, cr3: nat, kstackOk: bool): World
    requires On(w.s, cpu)
  {
    var (s, k) := Create(w.s, cpu, online, user, cr3, kstackOk);
    w.(s := s, held := if user && k.Some? then w.held - {cr3} else w.held)
  }

  function Step(w: World, op: Op): World
    requires Shaped(w.s) && |w.boot| == MAX_CPUS && Enabled(w, op)
  {
    match op
    case Ticked(cpu, now) => w.(s := Tick(w.s, cpu, now))
    case Forked(cpu, filesOk, stackOk) => w.(s := Fork(w.s, cpu, filesOk, stackOk).0)
    case Exited(cpu, code) => w.(s := Exit(w.s, cpu, code))
    case Killed(cpu, pid, sig) => w.(s := Kill(w.s, cpu, pid, sig).0)
    case Slept(cpu, until) => w.(s := Sleep(w.s, cpu, until))
    case WaitedFor(cpu, pid) => w.(s := WaitPid(w.s, cpu, pid).0)
    case Registered(cpu) =>
      var s := RegisterCpu(w.s, cpu);
      w.(s := s, boot := w.boot[cpu := s.current[cpu]])
    case Created(cpu, online, user, cr3, kstackOk) => AfterCreate(w, cpu, online, user, cr3, kstackOk)
    case Execed(cpu, cr3) => w.(s := HandOver(w.s, cpu, cr3), held := w.held - {cr3})
    case NewSpace =>
      var (vm, root) := CreateSpace(w.s.vm, w.s.kernel);
      w.(s := w.s.(vm := vm), held := if root != 0 then w.held + {root} else w.held)
    case DropSpace(cr3) => w.(s := w.s.(vm := ReleaseSpace(w.s.vm, cr3, w.s.kernel)), held := w.held - {cr3})
    case Touch(cr3, op) => w.(s := w.s.(vm := Vm(Apply(w.s.vm.phys, cr3, op), w.s.vm.table)))
    case Stored(cr3, v, bytes) => w.(s := w.s.(vm := Vm(Store(w.s.vm.phys, cr3, v, bytes), w.s.vm.table)))
    case ExecStack(cr3) =>
      var (t, ok) := GiveStack(w.s.vm.phys, cr3);
      if ok then w.(s := w.s.(vm := Vm(t, w.s.vm.table)))
      else w.(s := w.s.(vm := ReleaseSpace(Vm(t, w.s.vm.table), cr3, w.s.kernel)), held := w.held - {cr3})
  }

  /** The one space whose frames a step may change, 0 for none. */
  function Touched(w: World, op: Op): nat
    requires Shaped(w.s) && |w.boot| == MAX_CPUS && Enabled(w, op)
  {
    match op
    case WaitedFor(cpu, pid) =>
      var z := FindChild(w.s.threads, Cur(w.s, cpu), pid, true);
      if z < MAX_THREADS then w.s.threads[z].cr3 else 0
    case Execed(cpu, _) => w.s.threads[Cur(w.s, cpu)].cr3
    case NewSpace => CreateSpace(w.s.vm, w.s.kernel).1
    case DropSpace(cr3) => cr3
    case Created(_, _, user, cr3, _) => if user then cr3 else 0
    case Touch(cr3, _) => cr3
    case Stored(cr3, _, _) => cr3
    case ExecStack(cr3) => cr3
    case _ => 0
  }

  lemma TickOrderly(w: World, cpu: nat, now: nat)
    requires Orderly(w) && On(w.s, cpu)
    ensures Orderly(w.(s := Tick(w.s, cpu, now)))
  {
    var s1 := w.s.(threads := Wake(w.s.threads, now));
    WakeSeated(w.s, w.boot, now);
    WakeQuiet(w.s.threads, now);
    QuietLaw(w.s.threads, s1.threads, w.held, s1.vm.table);
    PickIsSound(s1, w.boot, cpu);
    SwitchOrderly(w.(s := s1), cpu, PickNext(s1.threads, s1.current[cpu], cpu));
  }

  lemma SwitchOrderly(w: World, cpu: nat, n: nat)
    requires Orderly(w) && On(w.s, cpu) && Picked(w.s.threads, w.s.current[cpu], cpu, n)
    ensures Orderly(w.(s := Switch(w.s, cpu, n)))
  {
    assert CpuOk(w.s, w.boot, cpu);
    SwitchSeated(w.s, w.boot, cpu, n);
    SwitchQuiet(w.s, cpu, n);
    QuietLaw(w.s.threads, Switch(w.s, cpu, n).threads, w.held, w.s.vm.table);
  }

  lemma ZombieSeated(s: Sched, boot: seq<Option<nat>>, k: nat, code: int)
    requires Seated(s, boot) && k < MAX_THREADS && s.threads[k].status != Unused
    requires forall c :: 0 <= c < MAX_CPUS ==> boot[c] != Some(k)
    ensures var t := s.(threads := MarkZombie(s.threads, k, code));
            && Shaped(t)
            && (forall i {:trigger ThreadOk(t, i)} :: 0 <= i < MAX_THREADS ==> ThreadOk(t, i))
            && (forall c {:trigger CpuOk(t, boot, c)} :: 0 <= c < MAX_CPUS && s.current[c] != Some(k) ==> CpuOk(t, boot, c))
            && (forall c {:trigger boot[c]} :: 0 <= c < MAX_CPUS && boot[c].Some? && boot[c].value < MAX_THREADS ==>
                 t.threads[boot[c].value].status == s.threads[boot[c].value].status)
  {
    var t := s.(threads := MarkZombie(s.threads, k, code));
    forall i | 0 <= i < MAX_THREADS ensures ThreadOk(t, i) { assert ThreadOk(s, i); }
    forall c | 0 <= c < MAX_CPUS && s.current[c] != Some(k) ensures CpuOk(t, boot, c) { assert CpuOk(s, boot, c); }
    forall c | 0 <= c < MAX_CPUS && boot[c].Some? && boot[c].value < MAX_THREADS
      ensures t.threads[boot[c].value].status == s.threads[boot[c].value].status { assert CpuOk(s, boot, c); }
  }

  /** Thread `p` is blocked until thread `i`, its child, ends. */
  predicate WaitsFor(ts: seq<Thread>, p: nat, i: nat)
    requires p < |ts| && i < |ts|
  {
    ts[p].status == Blocked && ts[i].parent == Some(p) && Matches(ts[p].waitTarget, ts[i])
  }

  /** The thread a processor goes on with after an exit is ready and not the one that exits. */
  lemma ExitPick(w: World, cpu: nat, code: int) returns (n: nat)
    requires Orderly(w) && On(w.s, cpu) && w.s.current[cpu] != w.boot[cpu]
    ensures var i := Cur(w.s, cpu);
            var ts := MarkZombie(w.s.threads, i, code);
            n == PickNext(ts, w.s.current[cpu], cpu) && n != i && ts[n].status == Ready && w.s.threads[i].status != Unused
  {
    var i := Cur(w.s, cpu);
    var ts := MarkZombie(w.s.threads, i, code);
    assert CpuOk(w.s, w.boot, cpu) && ThreadOk(w.s, i);
    forall c | 0 <= c < MAX_CPUS ensures w.boot[c] != Some(i) { assert CpuOk(w.s, w.boot, c); }
    ZombieSeated(w.s, w.boot, i, code);
    var b := w.boot[cpu].value;
    assert ts[b].status == w.s.threads[b].status;
    assert Candidate(ts[b], cpu);
    n := PickNext(ts, w.s.current[cpu], cpu);
  }

  /** A thread that exits is a zombie, the processor goes on with another thread, and a parent that
      waited for it is awake. */
  lemma ExitOrderly(w: World, cpu: nat, code: int)
    requires Orderly(w) && On(w.s, cpu) && w.s.current[cpu] != w.boot[cpu]
    ensures Orderly(w.(s := Exit(w.s, cpu, code)))
    ensures var i, s := Cur(w.s, cpu), Exit(w.s, cpu, code);
            && s.current[cpu].Some? && s.current[cpu] != Some(i) && s.threads[i].status == Zombie && s.threads[i].exitCode == code
            && forall p: nat :: p < MAX_THREADS && WaitsFor(w.s.threads, p, i) ==>
                 s.threads[p].status == if s.current[cpu] == Some(p) then Running else Ready
  {
    var i := Cur(w.s, cpu);
    var ts := MarkZombie(w.s.threads, i, code);
    var s1 := w.s.(threads := ts);
    assert CpuOk(w.s, w.boot, cpu) && ThreadOk(w.s, i);
    forall c | 0 <= c < MAX_CPUS ensures w.boot[c] != Some(i) { assert CpuOk(w.s, w.boot, c); }
    forall c | 0 <= c < MAX_CPUS && c != cpu ensures w.s.current[c] != Some(i) { assert CpuOk(w.s, w.boot, c); }
    ZombieSeated(w.s, w.boot, i, code);
    ZombieWakes(w.s.threads, i, code);
    var n := ExitPick(w, cpu, code);
    SwitchSeated(s1, w.boot, cpu, n);
    SameHoldCounted(w.s.threads, ts, w.held, w.s.vm.table);
    SwitchQuiet(s1, cpu, n);
    QuietLaw(ts, Switch(s1, cpu, n).threads, w.held, w.s.vm.table);
  }

  lemma KillOrderly(w: World, cpu: nat, pid: int, sig: int)
    requires Orderly(w) && On(w.s, cpu) && !KillsRunning(w.s, cpu, pid)
    ensures Orderly(w.(s := Kill(w.s, cpu, pid, sig).0))
  {
    var k := FindId(w.s.threads, pid);
    if k < MAX_THREADS && w.s.threads[k].user && k != Cur(w.s, cpu) && w.s.threads[k].status != Zombie {
      assert ThreadOk(w.s, k);
      forall c | 0 <= c < MAX_CPUS ensures w.boot[c] != Some(k) { assert CpuOk(w.s, w.boot, c); }
      ZombieSeated(w.s, w.boot, k, -sig);
      ZombieWakes(w.s.threads, k, -sig);
      SameHoldCounted(w.s.threads, MarkZombie(w.s.threads, k, -sig), w.held, w.s.vm.table);
    }
  }

  /** From any orderly world and for every processor and pid, a kill leaves order exactly if it does not
      end a thread that another processor is running. */
  lemma KillExact(w: World, cpu: nat, pid: int, sig: int)
    requires Orderly(w) && On(w.s, cpu)
    ensures Orderly(w.(s := Kill(w.s, cpu, pid, sig).0)) <==> !KillsRunning(w.s, cpu, pid)
  {
    if KillsRunning(w.s, cpu, pid) {
      var k, s := FindId(w.s.threads, pid), Kill(w.s, cpu, pid, sig).0;
      var c :| 0 <= c < MAX_CPUS && c != cpu && w.s.current[c] == Some(k);
      assert CpuOk(w.s, w.boot, c) && ThreadOk(w.s, k);
      assert !CpuOk(s, w.boot, c);
    } else {
      KillOrderly(w, cpu, pid, sig);
    }
  }

  /** A thread that is killed is a zombie, and a parent that waited for it is awake. */
  lemma KillWakes(w: World, cpu: nat, pid: int, sig: int, k: nat, p: nat)
    requires Orderly(w) && On(w.s, cpu) && k == FindId(w.s.threads, pid) && k < MAX_THREADS && p < MAX_THREADS
    requires w.s.threads[k].user && k != Cur(w.s, cpu) && w.s.threads[k].status != Zombie
    ensures var s := Kill(w.s, cpu, pid, sig).0;
            && s.threads[k].status == Zombie && s.threads[k].exitCode == -sig
            && (WaitsFor(w.s.threads, p, k) ==> s.threads[p].status == Ready)
  {
    assert ThreadOk(w.s, k);
    ZombieWakes(w.s.threads, k, -sig);
  }

  /** The current thread changes, and is neither a bootstrap thread nor made to run or end. */
  lemma CurrentSeated(s: Sched, boot: seq<Option<nat>>, cpu: nat, t: Thread)
    requires Seated(s, boot) && On(s, cpu) && s.current[cpu] != boot[cpu]
    requires var o := s.threads[Cur(s, cpu)]; t.parent == o.parent && t.cpu == o.cpu && t.user == o.user && t.cr3 == o.cr3
    requires Live(t) && t.status != Running
    ensures Seated(s.(threads := s.threads[Cur(s, cpu) := t]), boot)
  {
    var i := Cur(s, cpu);
    var s1 := s.(threads := s.threads[i := t]);
    assert CpuOk(s, boot, cpu);
    forall k | 0 <= k < MAX_THREADS ensures ThreadOk(s1, k) { assert ThreadOk(s, k); }
    forall c | 0 <= c < MAX_CPUS ensures CpuOk(s1, boot, c) { assert CpuOk(s, boot, c); }
  }

  lemma SleepOrderly(w: World, cpu: nat, until: nat)
    requires Orderly(w) && On(w.s, cpu) && w.s.current[cpu] != w.boot[cpu]
    ensures Orderly(w.(s := Sleep(w.s, cpu, until)))
  {
    var i := Cur(w.s, cpu);
    assert CpuOk(w.s, w.boot, cpu);
    CurrentSeated(w.s, w.boot, cpu, w.s.threads[i].(wakeup := until, status := Sleeping));
    WaitsKeptLaw(w.s.threads, Sleep(w.s, cpu, until).threads);
    SameHoldCounted(w.s.threads, Sleep(w.s, cpu, until).threads, w.held, w.s.vm.table);
  }

  /** A slot that is neither current nor a bootstrap thread changes. */
  lemma OtherSeated(s: Sched, boot: seq<Option<nat>>, k: nat, t: Thread)
    requires Seated(s, boot) && k < MAX_THREADS && t.status != Running
    requires t.parent.Some? ==> t.parent.value < MAX_THREADS && t.parent.value != k
    requires t.status != Unused ==> t.cr3 != 0 && (t.user <==> t.cr3 != s.kernel)
    requires s.threads[k].status == Unused || s.threads[k].status == Zombie
    ensures Seated(s.(threads := s.threads[k := t]), boot)
  {
    var s1 := s.(threads := s.threads[k := t]);
    forall i | 0 <= i < MAX_THREADS ensures ThreadOk(s1, i) { assert ThreadOk(s, i); }
    forall c | 0 <= c < MAX_CPUS ensures CpuOk(s1, boot, c) { assert CpuOk(s, boot, c); }
  }

  /** The roles after a release of `cr3`. */
  ghost function AfterRelease(vm: Vm, roles: Roles, cr3: nat): Roles {
    if Refs(vm.table, cr3) == 1 then Without(roles, cr3) else roles
  }

  /** Only the threads, the processors and the kernel's space matter for seating. */
  lemma SeatedSame(s: Sched, t: Sched, boot: seq<Option<nat>>)
    requires Seated(s, boot) && t.threads == s.threads && t.current == s.current && t.loaded == s.loaded && t.kernel == s.kernel
    ensures Seated(t, boot)
  {
    forall i | 0 <= i < MAX_THREADS ensures ThreadOk(t, i) { assert ThreadOk(s, i); }
    forall c | 0 <= c < MAX_CPUS ensures CpuOk(t, boot, c) { assert CpuOk(s, boot, c); }
  }

  /** A zombie's slot is emptied and its space, if it had one, released. */
  lemma ReapSafe(w: World, roles: Roles, z: nat) returns (after: Roles)
    requires Safe(w, roles) && z < MAX_THREADS && w.s.threads[z].status == Zombie
    ensures Safe(w.(s := Reap(w.s, z)), after) && OnlySpace(w.s.vm.phys, roles, Reap(w.s, z).vm.phys, after, w.s.threads[z].cr3)
  {
    var s, r := w.s, Reap(w.s, z);
    var t := s.threads[z];
    assert ThreadOk(s, z);
    OtherSeated(s, w.boot, z, r.threads[z]);
    SeatedSame(s.(threads := r.threads), r, w.boot);
    WaitsKeptLaw(s.threads, r.threads);
    if t.user {
      ReleaseCounted(s.threads, z, r.threads[z], w.held, s.vm.table, s.kernel);
      ReleaseSpaceStep(s.vm, roles, s.kernel, t.cr3);
      after := AfterRelease(s.vm, roles, t.cr3);
    } else {
      after := roles;
      IdleCounted(s.threads, z, r.threads[z], w.held, s.vm.table);
    }
  }

  lemma BlockOrderly(w: World, cpu: nat, pid: int)
    requires Orderly(w) && On(w.s, cpu) && w.s.current[cpu] != w.boot[cpu]
    requires FindChild(w.s.threads, Cur(w.s, cpu), pid, true) == MAX_THREADS
    requires FindChild(w.s.threads, Cur(w.s, cpu), pid, false) < MAX_THREADS
    ensures var i := Cur(w.s, cpu);
            Orderly(w.(s := w.s.(threads := w.s.threads[i := w.s.threads[i].(waitTarget := pid, status := Blocked)])))
  {
    var s := w.s;
    var i := Cur(s, cpu);
    var t := s.threads[i].(waitTarget := pid, status := Blocked);
    assert CpuOk(s, w.boot, cpu) && ThreadOk(s, i);
    CurrentSeated(s, w.boot, cpu, t);
    BlockWaits(s.threads, i, pid);
    SameHoldCounted(s.threads, s.threads[i := t], w.held, s.vm.table);
  }

  lemma WaitSafe(w: World, roles: Roles, cpu: nat, pid: int) returns (after: Roles)
    requires Safe(w, roles) && On(w.s, cpu) && w.s.current[cpu] != w.boot[cpu]
    ensures Safe(w.(s := WaitPid(w.s, cpu, pid).0), after)
    ensures OnlySpace(w.s.vm.phys, roles, WaitPid(w.s, cpu, pid).0.vm.phys, after, Touched(w, WaitedFor(cpu, pid)))
  {
    var i := Cur(w.s, cpu);
    var z := FindChild(w.s.threads, i, pid, true);
    after := roles;
    if z < MAX_THREADS {
      after := ReapSafe(w, roles, z);
    } else if FindChild(w.s.threads, i, pid, false) < MAX_THREADS {
      BlockOrderly(w, cpu, pid);
    }
  }

  // ---------------------------------------------------------------------------------------
  // New threads
  // ---------------------------------------------------------------------------------------

  /** A free slot is filled by a child of the current thread, which counts one child more. */
  lemma AdoptSeated(s: Sched, boot: seq<Option<nat>>, p: nat, k: nat, t: Thread)
    requires Seated(s, boot) && k < MAX_THREADS && s.threads[k].status == Unused
    requires p < MAX_THREADS && s.threads[p].status != Unused
    requires t.parent == Some(p) && t.status in {Ready, Unused}
    requires t.status != Unused ==> t.cr3 != 0 && (t.user <==> t.cr3 != s.kernel)
    ensures Seated(Adopt(s, p, k, t), boot)
  {
    OtherSeated(s, boot, k, t);
    var s1, s2 := s.(threads := s.threads[k := t]), Adopt(s, p, k, t);
    forall i | 0 <= i < MAX_THREADS ensures ThreadOk(s2, i) { assert ThreadOk(s1, i); }
    forall c | 0 <= c < MAX_CPUS ensures CpuOk(s2, boot, c) { assert CpuOk(s1, boot, c); }
  }

  /** Beyond the new slot the threads are quiet. */
  lemma AdoptQuiet(s: Sched, p: nat, k: nat, t: Thread)
    requires Shaped(s) && k < MAX_THREADS && s.threads[k].status == Unused && p < MAX_THREADS && s.threads[p].status != Unused
    requires t.status in {Ready, Unused}
    ensures WaitsKept(s.threads, Adopt(s, p, k, t).threads)
    ensures AllSameHold(s.threads[k := t], Adopt(s, p, k, t).threads)
  {
  }

  lemma ForkOrderly(w: World, p: nat, k: nat, t: Thread, vm: Vm)
    requires Orderly(w) && p < MAX_THREADS && w.s.threads[p].status != Unused && w.s.threads[p].user
    requires k < MAX_THREADS && w.s.threads[k].status == Unused
    requires t.user && t.cr3 == w.s.threads[p].cr3 && t.parent == Some(p) && t.status in {Ready, Unused}
    requires vm.table == var r := Retain(w.s.vm.table, t.cr3, w.s.kernel); if t.status == Ready then r else Release(r, t.cr3, w.s.kernel).0
    ensures Orderly(w.(s := Adopt(w.s, p, k, t).(vm := vm)))
  {
    var s := w.s;
    assert ThreadOk(s, p);
    AdoptSeated(s, w.boot, p, k, t);
    SeatedSame(Adopt(s, p, k, t), Adopt(s, p, k, t).(vm := vm), w.boot);
    AdoptQuiet(s, p, k, t);
    WaitsKeptLaw(s.threads, Adopt(s, p, k, t).threads);
    AHolder(s.threads, p, t.cr3);
    var u := t.(status := Ready);
    RetainCounted(s.threads, k, u, w.held, s.vm.table, s.kernel);
    if t.status == Unused {
      ReleaseCounted(s.threads[k := u], k, t, w.held, Retain(s.vm.table, t.cr3, s.kernel), s.kernel);
      assert s.threads[k := u][k := t] == s.threads[k := t];
    }
    SameHoldCounted(s.threads[k := t], Adopt(s, p, k, t).threads, w.held, vm.table);
  }

  /** The memory side of a fork: a reference taken, and given back on failure. */
  lemma ForkSpaces(vm: Vm, roles: Roles, kernel: nat, cr3: nat)
    requires VmInv(vm, roles, kernel) && IsRoot(roles, cr3)
    ensures VmInv(RetainSpace(vm, cr3, kernel), roles, kernel)
    ensures VmInv(ReleaseSpace(RetainSpace(vm, cr3, kernel), cr3, kernel), roles, kernel)
    ensures ReleaseSpace(RetainSpace(vm, cr3, kernel), cr3, kernel).phys == vm.phys
  {
    RetainSpaceStep(vm, roles, kernel, cr3);
    ReleaseSpaceStep(RetainSpace(vm, cr3, kernel), roles, kernel, cr3);
  }

  lemma ForkSafe(w: World, roles: Roles, cpu: nat, filesOk: bool, stackOk: bool)
    requires Safe(w, roles) && On(w.s, cpu)
    ensures Safe(w.(s := Fork(w.s, cpu, filesOk, stackOk).0), roles) && Fork(w.s, cpu, filesOk, stackOk).0.vm.phys == w.s.vm.phys
  {
    var s, p, k := w.s, Cur(w.s, cpu), FindUnused(w.s.threads);
    var parent := s.threads[p];
    if parent.user && k < MAX_THREADS {
      assert CpuOk(s, w.boot, cpu);
      var child := FreshThread(s.nextId).(user := true, cr3 := parent.cr3, priority := parent.priority, cpu := parent.cpu, parent := Some(p));
      HeldIsRoot(s.threads, p, w.held, s.vm, roles, s.kernel);
      ForkSpaces(s.vm, roles, s.kernel, parent.cr3);
      var vm := RetainSpace(s.vm, parent.cr3, s.kernel);
      if filesOk && stackOk {
        ForkOrderly(w, p, k, child, vm);
      } else {
        ForkOrderly(w, p, k, child.(status := Unused), ReleaseSpace(vm, parent.cr3, s.kernel));
      }
    }
  }

  lemma CreateOrderly(w: World, cpu: nat, online: nat, user: bool, cr3: nat, ok: bool, phys: Phys)
    requires Orderly(w) && On(w.s, cpu) && w.s.kernel != 0 && w.s.kernel !in w.held && 0 !in w.held
    requires (if user then cr3 == 0 || cr3 in w.held else cr3 == w.s.kernel) && (ok ==> cr3 != 0)
    requires FindUnused(w.s.threads) < MAX_THREADS
    ensures Orderly(w.(s := Enroll(w.s, Cur(w.s, cpu), FindUnused(w.s.threads), online, user, cr3, phys, ok),
                       held := if user && ok then w.held - {cr3} else w.held))
  {
    var s, p, k := w.s, Cur(w.s, cpu), FindUnused(w.s.threads);
    assert CpuOk(s, w.boot, cpu);
    var (on, rr) := PickCpu(s.rr, online);
    var t := FreshThread(s.nextId).(user := user, cr3 := cr3, parent := Some(p), cpu := on, status := if ok then Ready else Unused);
    var s1 := Adopt(s, p, k, t);
    AdoptSeated(s, w.boot, p, k, t);
    SeatedSame(s1, s1.(rr := rr, vm := Vm(phys, s.vm.table)), w.boot);
    AdoptQuiet(s, p, k, t);
    WaitsKeptLaw(s.threads, s1.threads);
    if user && ok {
      TakeCounted(s.threads, k, t, w.held, s.vm.table);
      SameHoldCounted(s.threads[k := t], s1.threads, w.held - {cr3}, s.vm.table);
    } else {
      IdleCounted(s.threads, k, t, w.held, s.vm.table);
      SameHoldCounted(s.threads[k := t], s1.threads, w.held, s.vm.table);
    }
  }

  /** The stacks of a new thread are a matter of its space alone, as long as the user stack does not
      stop half-way. */
  lemma StacksSafe(w: World, roles: Roles, user: bool, cr3: nat, kstackOk: bool, t: Phys, ok: bool) returns (after: Roles)
    requires Safe(w, roles) && (if user then cr3 == 0 || cr3 in w.held else cr3 == w.s.kernel)
    requires (t, ok) == Stacks(w.s.vm.phys, user, cr3, kstackOk) && (user && cr3 != 0 && kstackOk ==> Clean(w.s.vm.phys, cr3))
    ensures VmInv(Vm(t, w.s.vm.table), after, w.s.kernel) && OnlySpace(w.s.vm.phys, roles, t, after, if user then cr3 else 0)
  {
    after := roles;
    if user && cr3 != 0 && kstackOk {
      HeldExists(w, roles, cr3);
      var ds;
      ds, after := GiveStackLaw(w.s.vm.phys, roles, cr3, t, ok);
      OneSpaceStep(w.s.vm, roles, w.s.kernel, cr3, t, after);
    }
  }

  lemma CreateSafe(w: World, roles: Roles, cpu: nat, online: nat, user: bool, cr3: nat, kstackOk: bool) returns (after: Roles)
    requires Safe(w, roles) && w.s.kernel != 0 && Enabled(w, Created(cpu, online, user, cr3, kstackOk))
    ensures var w' := Step(w, Created(cpu, online, user, cr3, kstackOk));
            Safe(w', after) && OnlySpace(w.s.vm.phys, roles, w'.s.vm.phys, after, if user then cr3 else 0) && w'.s.kernel == w.s.kernel
  {
    after := roles;
    if FindUnused(w.s.threads) < MAX_THREADS {
      KernelNotZero(w, roles);
      var (t, ok) := Stacks(w.s.vm.phys, user, cr3, kstackOk);
      after := StacksSafe(w, roles, user, cr3, kstackOk, t, ok);
      CreateOrderly(w, cpu, online, user, cr3, ok, t);
    }
  }

  /** A creation leaves an account of all frames exactly if it does not map part of the stack and fail. */
  lemma CreateExact(w: World, roles: Roles, cpu: nat, online: nat, user: bool, cr3: nat, kstackOk: bool)
    requires Safe(w, roles) && w.s.kernel != 0 && On(w.s, cpu) && if user then cr3 == 0 || cr3 in w.held else cr3 == w.s.kernel
    ensures (exists after :: Safe(AfterCreate(w, cpu, online, user, cr3, kstackOk), after)) <==> !StackStops(w.s, user, cr3, kstackOk)
  {
    if StackStops(w.s, user, cr3, kstackOk) {
      HeldExists(w, roles, cr3);
      var (t, ok) := GiveStack(w.s.vm.phys, cr3);
      var ds, _ := GiveStackLaw(w.s.vm.phys, roles, cr3, t, ok);
      var w' := AfterCreate(w, cpu, online, user, cr3, kstackOk);
      forall after ensures !Safe(w', after) { NoAccount(w', after, t, cr3); }
    } else {
      var after := CreateSafe(w, roles, cpu, online, user, cr3, kstackOk);
    }
  }

  lemma NoAccount(w: World, after: Roles, t: Phys, cr3: nat)
    requires w.s.vm.phys == t && Refs(w.s.vm.table, cr3) > 0 && !(Inv(t, after) && IsRoot(after, cr3))
    ensures !Safe(w, after)
  {
    assert Safe(w, after) ==> IsRoot(after, cr3);
  }

  lemma RegisterOrderly(w: World, cpu: nat)
    requires Orderly(w) && cpu < MAX_CPUS && w.s.current[cpu].None? && w.s.kernel != 0
    ensures Orderly(Step(w, Registered(cpu)))
  {
    var s, k := w.s, FindUnused(w.s.threads);
    var s1, boot := RegisterCpu(s, cpu), Step(w, Registered(cpu)).boot;
    if k < MAX_THREADS {
      forall i | 0 <= i < MAX_THREADS ensures ThreadOk(s1, i) { assert ThreadOk(s, i) && CpuOk(s, w.boot, cpu); }
      forall c | 0 <= c < MAX_CPUS ensures CpuOk(s1, boot, c) { assert CpuOk(s, w.boot, c); }
      WaitsKeptLaw(s.threads, s1.threads);
      IdleCounted(s.threads, k, s1.threads[k], w.held, s.vm.table);
    } else {
      assert CpuOk(s, w.boot, cpu) && boot == w.boot;
    }
  }

  // ---------------------------------------------------------------------------------------
  // Spaces
  // ---------------------------------------------------------------------------------------

  /** A space in hand exists as a tree and is not the kernel's. */
  lemma HeldExists(w: World, roles: Roles, d: nat)
    requires Safe(w, roles) && d in w.held
    ensures IsRoot(roles, d) && d != w.s.kernel && d != 0 && Refs(w.s.vm.table, d) > 0
  {
    assert Refs(w.s.vm.table, d) == Holders(w.s.threads, d) + 1;
  }

  lemma KernelNotZero(w: World, roles: Roles)
    requires Safe(w, roles)
    ensures w.s.kernel !in w.held && 0 !in w.held
  {
    if w.s.kernel in w.held { HeldExists(w, roles, w.s.kernel); }
    if 0 in w.held { HeldExists(w, roles, 0); }
  }

  lemma ExecSeated(s: Sched, boot: seq<Option<nat>>, cpu: nat, cr3: nat)
    requires Seated(s, boot) && On(s, cpu) && s.threads[Cur(s, cpu)].user && cr3 != 0 && cr3 != s.kernel
    ensures Seated(HandOver(s, cpu, cr3), boot)
  {
    var t := HandOver(s, cpu, cr3);
    assert CpuOk(s, boot, cpu);
    forall i | 0 <= i < MAX_THREADS ensures ThreadOk(t, i) { assert ThreadOk(s, i); }
    forall c | 0 <= c < MAX_CPUS ensures CpuOk(t, boot, c) { assert CpuOk(s, boot, c); }
  }

  lemma ExecSafe(w: World, roles: Roles, cpu: nat, cr3: nat) returns (after: Roles)
    requires Safe(w, roles) && Enabled(w, Execed(cpu, cr3))
    ensures Safe(Step(w, Execed(cpu, cr3)), after)
    ensures OnlySpace(w.s.vm.phys, roles, Step(w, Execed(cpu, cr3)).s.vm.phys, after, Touched(w, Execed(cpu, cr3)))
  {
    var s, i := w.s, Cur(w.s, cpu);
    var was := s.threads[i].cr3;
    HeldExists(w, roles, cr3);
    assert CpuOk(s, w.boot, cpu) && ThreadOk(s, i);
    ExecSeated(s, w.boot, cpu, cr3);
    WaitsKeptLaw(s.threads, HandOver(s, cpu, cr3).threads);
    MoveCounted(s.threads, i, cr3, w.held, s.vm.table, s.kernel);
    HeldIsRoot(s.threads, i, w.held, s.vm, roles, s.kernel);
    ReleaseSpaceStep(s.vm, roles, s.kernel, was);
    after := AfterRelease(s.vm, roles, was);
  }

  lemma NewCounted(ts: seq<Thread>, held: set<nat>, table: Table, root: nat)
    requires Counted(ts, held, table) && root != 0 && Refs(table, root) == 0
    ensures var (u, ok) := Register(table, root); ok ==> Counted(ts, held + {root}, u)
  {
    var (u, ok) := Register(table, root);
    RegisterLaw(table, root, root);
    if ok {
      forall d: nat ensures Refs(u, d) == Holders(ts, d) + if d in held + {root} then 1 else 0 { RegisterLaw(table, root, d); }
    }
  }

  lemma NewSpaceSafe(w: World, roles: Roles) returns (after: Roles)
    requires Safe(w, roles)
    ensures Safe(Step(w, NewSpace), after)
    ensures OnlySpace(w.s.vm.phys, roles, Step(w, NewSpace).s.vm.phys, after, Touched(w, NewSpace))
  {
    after := CreateSpaceStep(w.s.vm, roles, w.s.kernel);
    var (vm, root) := CreateSpace(w.s.vm, w.s.kernel);
    SeatedSame(w.s, w.s.(vm := vm), w.boot);
    if root != 0 {
      assert !IsRoot(roles, root);
      NewCounted(w.s.threads, w.held, w.s.vm.table, root);
    }
  }

  lemma DropSafe(w: World, roles: Roles, cr3: nat) returns (after: Roles)
    requires Safe(w, roles) && cr3 in w.held
    ensures Safe(Step(w, DropSpace(cr3)), after)
    ensures OnlySpace(w.s.vm.phys, roles, Step(w, DropSpace(cr3)).s.vm.phys, after, Touched(w, DropSpace(cr3)))
  {
    HeldExists(w, roles, cr3);
    var vm, kernel := ReleaseSpace(w.s.vm, cr3, w.s.kernel), w.s.kernel;
    ReleaseSpaceStep(w.s.vm, roles, kernel, cr3);
    after := AfterRelease(w.s.vm, roles, cr3);
    DroppedOrderly(w, cr3, vm);
  }

  lemma TouchSafe(w: World, roles: Roles, cr3: nat, op: PageOp) returns (after: Roles)
    requires Safe(w, roles) && Refs(w.s.vm.table, cr3) > 0 && UserPage(op.v)
    ensures Safe(Step(w, Touch(cr3, op)), after)
    ensures OnlySpace(w.s.vm.phys, roles, Step(w, Touch(cr3, op)).s.vm.phys, after, Touched(w, Touch(cr3, op)))
  {
    assert IsRoot(roles, cr3);
    after := PageStep(w.s.vm, roles, w.s.kernel, cr3, op);
    SeatedSame(w.s, Step(w, Touch(cr3, op)).s, w.boot);
  }

  lemma StoreSafe(w: World, roles: Roles, cr3: nat, v: nat, bytes: Bytes) returns (after: Roles)
    requires Safe(w, roles) && Refs(w.s.vm.table, cr3) > 0 && UserPage(v)
    ensures Safe(Step(w, Stored(cr3, v, bytes)), after)
    ensures OnlySpace(w.s.vm.phys, roles, Step(w, Stored(cr3, v, bytes)).s.vm.phys, after, cr3)
  {
    assert IsRoot(roles, cr3);
    after := roles;
    var s, t := w.s.vm.phys, Store(w.s.vm.phys, cr3, v, bytes);
    StoreLaw(s, roles, cr3, v, bytes, t);
    OneSpaceStep(w.s.vm, roles, w.s.kernel, cr3, t, roles);
    SeatedSame(w.s, Step(w, Stored(cr3, v, bytes)).s, w.boot);
  }

  /** A write changes the page it is for, if that is mapped, and nothing else. */
  lemma StoreLaw(s: Phys, roles: Roles, root: nat, v: nat, bytes: Bytes, t: Phys)
    requires Inv(s, roles) && IsRoot(roles, root) && UserPage(v) && t == Store(s, root, v, bytes)
    ensures Inv(t, roles) && OnlySpace(s, roles, t, roles, root)
    ensures ViewOf(t, root) == if v in PageMap(s.mem, root) then ViewOf(s, root)[v := bytes] else ViewOf(s, root)
  {
    PathOfPage(v);
    if v in PageMap(s.mem, root) { WriteView(s, roles, root, v, bytes); }
  }

  /** The stack of `SYS_execve`: had as a whole, or the space is gone without a trace. */
  lemma ExecStackSafe(w: World, roles: Roles, cr3: nat) returns (after: Roles)
    requires Safe(w, roles) && Enabled(w, ExecStack(cr3))
    ensures Safe(Step(w, ExecStack(cr3)), after) && OnlySpace(w.s.vm.phys, roles, Step(w, ExecStack(cr3)).s.vm.phys, after, cr3)
    ensures cr3 in Step(w, ExecStack(cr3)).held <==> StackFits(w.s.vm.phys, cr3)
    ensures cr3 !in Step(w, ExecStack(cr3)).held ==> after == Without(roles, cr3)
  {
    HeldExists(w, roles, cr3);
    var s := w.s.vm.phys;
    var (t, ok) := GiveStack(s, cr3);
    var ds, grown := GiveStackLaw(s, roles, cr3, t, ok);
    if ok {
      after := grown;
      OneSpaceStep(w.s.vm, roles, w.s.kernel, cr3, t, after);
      SeatedSame(w.s, Step(w, ExecStack(cr3)).s, w.boot);
    } else {
      after := Without(roles, cr3);
      var z := Destroy(t, cr3);
      GiveStackUndone(s, roles, cr3, t, ok, z, after);
      LastReleaseStep(w.s.vm, roles, w.s.kernel, cr3, t, z, after);
      DroppedOrderly(w, cr3, ReleaseSpace(Vm(t, w.s.vm.table), cr3, w.s.kernel));
    }
  }

  lemma DroppedOrderly(w: World, cr3: nat, vm: Vm)
    requires Orderly(w) && cr3 in w.held && cr3 != w.s.kernel && vm.table == Release(w.s.vm.table, cr3, w.s.kernel).0
    ensures Orderly(w.(s := w.s.(vm := vm), held := w.held - {cr3}))
  {
    SeatedSame(w.s, w.s.(vm := vm), w.boot);
    ReleaseLaw(w.s.vm.table, cr3, w.s.kernel, cr3);
    forall d: nat ensures Refs(vm.table, d) == Holders(w.s.threads, d) + if d in w.held - {cr3} then 1 else 0 {
      ReleaseLaw(w.s.vm.table, cr3, w.s.kernel, d);
    }
  }

  // ---------------------------------------------------------------------------------------
  // Runs
  // ---------------------------------------------------------------------------------------

  /** Every step keeps the world safe, and frees, allocates and writes frames of one space at most. */
  lemma StepSafe(w: World, roles: Roles, op: Op) returns (after: Roles)
    requires Safe(w, roles) && w.s.kernel != 0 && Enabled(w, op)
    ensures Safe(Step(w, op), after) && Step(w, op).s.kernel == w.s.kernel
    ensures OnlySpace(w.s.vm.phys, roles, Step(w, op).s.vm.phys, after, Touched(w, op))
  {
    match op {
      case WaitedFor(cpu, pid) => after := WaitSafe(w, roles, cpu, pid);
      case Execed(cpu, cr3) => after := ExecSafe(w, roles, cpu, cr3);
      case NewSpace => after := NewSpaceSafe(w, roles);
      case DropSpace(cr3) => after := DropSafe(w, roles, cr3);
      case Created(cpu, online, user, cr3, kstackOk) => after := CreateSafe(w, roles, cpu, online, user, cr3, kstackOk);
      case Touch(cr3, p) => after := TouchSafe(w, roles, cr3, p);
      case Stored(cr3, v, bytes) => after := StoreSafe(w, roles, cr3, v, bytes);
      case ExecStack(cr3) => after := ExecStackSafe(w, roles, cr3);
      case _ =>
        after := roles;
        SameMemoryStep(w, roles, op);
    }
  }

  /** The steps that only change threads. */
  lemma SameMemoryStep(w: World, roles: Roles, op: Op)
    requires Safe(w, roles) && w.s.kernel != 0 && Enabled(w, op)
    requires !op.WaitedFor? && !op.Execed? && !op.NewSpace? && !op.DropSpace?
    requires !op.Touch? && !op.Created? && !op.Stored? && !op.ExecStack?
    ensures Safe(Step(w, op), roles) && Step(w, op).s.kernel == w.s.kernel && Step(w, op).s.vm.phys == w.s.vm.phys
  {
    match op {
      case Ticked(cpu, now) => TickOrderly(w, cpu, now);
      case Forked(cpu, filesOk, stackOk) => ForkSafe(w, roles, cpu, filesOk, stackOk);
      case Exited(cpu, code) => ExitOrderly(w, cpu, code);
      case Killed(cpu, pid, sig) => KillOrderly(w, cpu, pid, sig);
      case Slept(cpu, until) => SleepOrderly(w, cpu, until);
      case Registered(cpu) => RegisterOrderly(w, cpu);
    }
  }

  lemma ReleaseSurvivor(vm: Vm, roles: Roles, kernel: nat, d: nat)
    requires VmInv(vm, roles, kernel) && IsRoot(roles, d) && Refs(ReleaseSpace(vm, d, kernel).table, d) > 0
    ensures ReleaseSpace(vm, d, kernel).phys == vm.phys
  {
    ReleaseSpaceStep(vm, roles, kernel, d);
    assert IsRoot(roles, d) <==> Refs(vm.table, d) > 0;
  }

  /** The step maps into space `d`, or writes there. */
  predicate Works(op: Op, d: nat) {
    match op
    case Touch(cr3, _) => cr3 == d
    case Stored(cr3, _, _) => cr3 == d
    case ExecStack(cr3) => cr3 == d
    case Created(_, _, user, cr3, _) => user && cr3 == d
    case _ => false
  }

  /** A space that a step gives up and that still has references is left alone. */
  lemma SurvivorKept(w: World, roles: Roles, op: Op)
    requires Safe(w, roles) && w.s.kernel != 0 && Enabled(w, op) && !Works(op, Touched(w, op))
    requires IsRoot(roles, Touched(w, op)) && Refs(Step(w, op).s.vm.table, Touched(w, op)) > 0
    ensures Step(w, op).s.vm.phys == w.s.vm.phys
  {
    match op {
      case WaitedFor(cpu, pid) =>
        var z := FindChild(w.s.threads, Cur(w.s, cpu), pid, true);
        if z < MAX_THREADS && w.s.threads[z].user { ReleaseSurvivor(w.s.vm, roles, w.s.kernel, w.s.threads[z].cr3); }
      case Execed(cpu, _) => ReleaseSurvivor(w.s.vm, roles, w.s.kernel, w.s.threads[Cur(w.s, cpu)].cr3);
      case DropSpace(cr3) => ReleaseSurvivor(w.s.vm, roles, w.s.kernel, cr3);
      case NewSpace => var _ := CreateSpaceStep(w.s.vm, roles, w.s.kernel);
      case Created(_, _, _, _, _) =>
      case _ => SameMemoryStep(w, roles, op);
    }
  }

  /** As long as a space has references, no step but mapping into it and writing there changes its pages
      or its bytes. */
  lemma StepKeepsSpaces(w: World, roles: Roles, op: Op, d: nat)
    requires Safe(w, roles) && w.s.kernel != 0 && Enabled(w, op)
    requires IsRoot(roles, d) && Refs(Step(w, op).s.vm.table, d) > 0 && !Works(op, d)
    ensures ViewOf(Step(w, op).s.vm.phys, d) == ViewOf(w.s.vm.phys, d)
    ensures PageMap(Step(w, op).s.vm.phys.mem, d) == PageMap(w.s.vm.phys.mem, d)
  {
    var after := StepSafe(w, roles, op);
    if d != Touched(w, op) {
      OtherViewKept(w.s.vm.phys, roles, Step(w, op).s.vm.phys, after, Touched(w, op), d);
    } else {
      SurvivorKept(w, roles, op);
    }
  }

  ghost predicate Allowed(w: World, ops: seq<Op>)
    decreases |ops|
  {
    ops != [] ==>
      Shaped(w.s) && |w.boot| == MAX_CPUS && Enabled(w, ops[0]) && Allowed(Step(w, ops[0]), ops[1..])
  }

  function Run(w: World, ops: seq<Op>): World
    requires Allowed(w, ops)
    decreases |ops|
  {
    if ops == [] then w else Run(Step(w, ops[0]), ops[1..])
  }

  lemma {:induction false} RunSafe(w: World, roles: Roles, ops: seq<Op>) returns (after: Roles)
    requires Safe(w, roles) && w.s.kernel != 0 && Allowed(w, ops)
    ensures Safe(Run(w, ops), after) && Run(w, ops).s.kernel == w.s.kernel
    decreases |ops|
  {
    if ops == [] {
      after := roles;
    } else {
      var r := StepSafe(w, roles, ops[0]);
      after := RunSafe(Step(w, ops[0]), r, ops[1..]);
    }
  }

  function Boot(vm: Vm, kernel: nat): World {
    World(BootState(vm, kernel), seq(MAX_CPUS, _ => None)[0 := Some(0)], {})
  }

  lemma {:induction false} NoHolders(ts: seq<Thread>, d: nat)
    requires forall i :: 0 <= i < |ts| ==> !HoldsSpace(ts[i], d)
    ensures Holders(ts, d) == 0
    decreases |ts|
  {
    if ts != [] { NoHolders(ts[..|ts| - 1], d); }
  }

  lemma BootSafe(vm: Vm, kernel: nat)
    requires VmInv(vm, map[], kernel) && kernel != 0 && forall i :: 0 <= i < |vm.table| ==> vm.table[i].refs == 0
    ensures Safe(Boot(vm, kernel), map[])
  {
    var w := Boot(vm, kernel);
    forall i | 0 <= i < MAX_THREADS ensures ThreadOk(w.s, i) {}
    forall c | 0 <= c < MAX_CPUS ensures CpuOk(w.s, w.boot, c) {}
    forall d: nat ensures Refs(vm.table, d) == Holders(w.s.threads, d) { NoHolders(w.s.threads, d); }
  }

  /** A running thread is the current thread of its own processor; a processor has its current
      thread's space loaded; bootstrap threads run when current and are ready otherwise; a blocked
      thread has a live child to wait for; every space has one reference for each thread that holds
      it and one if it is in hand; and the space of every thread and every processor is the
      kernel's or the root of a whole tree of tables. */
  ghost predicate InOrder(w: World, roles: Roles)
    requires Shaped(w.s) && |w.boot| == MAX_CPUS
  {
    var s := w.s;
    && (forall i :: 0 <= i < MAX_THREADS && s.threads[i].status == Running ==>
          s.threads[i].cpu < MAX_CPUS && s.current[s.threads[i].cpu] == Some(i))
    && (forall c :: 0 <= c < MAX_CPUS && s.current[c].Some? ==>
          && s.loaded[c] == s.threads[s.current[c].value].cr3
          && (s.loaded[c] == s.kernel || IsRoot(roles, s.loaded[c]))
          && w.boot[c].Some? && w.boot[c].value < MAX_THREADS
          && s.threads[w.boot[c].value].status == if w.boot[c] == s.current[c] then Running else Ready)
    && (forall i :: 0 <= i < MAX_THREADS && s.threads[i].status == Blocked ==>
          exists j :: 0 <= j < MAX_THREADS && Awaited(s.threads, i, j))
    && (forall i :: 0 <= i < MAX_THREADS && s.threads[i].status != Unused && s.threads[i].user ==> IsRoot(roles, s.threads[i].cr3))
    && (forall d: nat :: Refs(s.vm.table, d) == Holders(s.threads, d) + if d in w.held then 1 else 0)
    && Inv(s.vm.phys, roles)
  }

  lemma SafeMeans(w: World, roles: Roles)
    requires Safe(w, roles)
    ensures InOrder(w, roles)
  {
    var s := w.s;
    forall i | 0 <= i < MAX_THREADS && s.threads[i].status != Unused && s.threads[i].user ensures IsRoot(roles, s.threads[i].cr3) {
      HeldIsRoot(s.threads, i, w.held, s.vm, roles, s.kernel);
    }
    forall i | 0 <= i < MAX_THREADS && s.threads[i].status == Running
      ensures s.threads[i].cpu < MAX_CPUS && s.current[s.threads[i].cpu] == Some(i) { assert ThreadOk(s, i); }
    forall i | 0 <= i < MAX_THREADS && s.threads[i].status == Blocked
      ensures exists j :: 0 <= j < MAX_THREADS && Awaited(s.threads, i, j) { assert WaitOk(s.threads, i); }
    forall c | 0 <= c < MAX_CPUS && s.current[c].Some?
      ensures && s.loaded[c] == s.threads[s.current[c].value].cr3
              && (s.loaded[c] == s.kernel || IsRoot(roles, s.loaded[c]))
              && w.boot[c].Some? && w.boot[c].value < MAX_THREADS
              && s.threads[w.boot[c].value].status == if w.boot[c] == s.current[c] then Running else Ready
    {
      assert CpuOk(s, w.boot, c) && ThreadOk(s, s.current[c].value);
    }
  }

  /** Over every run from boot, on all processors, everything is in order. */
  lemma EveryRun(vm: Vm, kernel: nat, ops: seq<Op>) returns (roles: Roles)
    requires VmInv(vm, map[], kernel) && kernel != 0 && forall i :: 0 <= i < |vm.table| ==> vm.table[i].refs == 0
    requires Allowed(Boot(vm, kernel), ops)
    ensures var w := Run(Boot(vm, kernel), ops); Shaped(w.s) && |w.boot| == MAX_CPUS && InOrder(w, roles) && Safe(w, roles)
  {
    BootSafe(vm, kernel);
    roles := RunSafe(Boot(vm, kernel), map[], ops);
    SafeMeans(Run(Boot(vm, kernel), ops), roles);
  }

  /** Whenever a processor picks its next thread in a run, the pick is sound. */
  lemma EveryPick(w: World, roles: Roles, cpu: nat, now: nat)
    requires Safe(w, roles) && On(w.s, cpu)
    ensures var ts := Wake(w.s.threads, now);
            Picked(ts, w.s.current[cpu], cpu, PickNext(ts, w.s.current[cpu], cpu))
  {
    WakeSeated(w.s, w.boot, now);
    PickIsSound(w.s.(threads := Wake(w.s.threads, now)), w.boot, cpu);
  }
}

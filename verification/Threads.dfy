/** The thread table of src/scheduler.c and what each of its steps does to it, on values. One step
    is one region under `g_sched_lock`. Threads are named by their slot, address spaces by the
    frame of their top table. */
module Threads {
  import opened Basics
  import opened Align
  import opened Paging
  import opened SpaceLife
  import opened StackOps

  const MAX_THREADS: nat := 64
  const MAX_CPUS: nat := 8
  const TWO32: nat := 0x1_0000_0000

  datatype Status = Unused | Ready | Running | Sleeping | Blocked | Zombie

  datatype Thread = Thread(id: nat, status: Status, user: bool, priority: int, parent: Option<nat>, children: nat,
                           exitCode: int, waitTarget: int, cr3: nat, wakeup: nat, cpu: nat)

  /** `g_threads`, `g_current`, `g_next_id`, `g_cpu_rr`, `kspace_cr3`, each processor's CR3, and the
      memory with the table of address spaces. */
  datatype Sched = Sched(threads: seq<Thread>, current: seq<Option<nat>>, nextId: nat, rr: nat,
                         kernel: nat, loaded: seq<nat>, vm: Vm)

  predicate Shaped(s: Sched) {
    && |s.threads| == MAX_THREADS && |s.current| == |s.loaded| == MAX_CPUS
    && (forall c :: 0 <= c < MAX_CPUS && s.current[c].Some? ==> s.current[c].value < MAX_THREADS)
    && (forall i :: 0 <= i < MAX_THREADS && s.threads[i].parent.Some? ==> s.threads[i].parent.value < MAX_THREADS)
  }

  /** The processor runs a thread. */
  predicate On(s: Sched, cpu: nat) {
    Shaped(s) && cpu < MAX_CPUS && s.current[cpu].Some?
  }

  /** The slot `g_current[cpu]` points to. */
  function Cur(s: Sched, cpu: nat): (i: nat)
    requires On(s, cpu)
    ensures i < MAX_THREADS
  {
    s.current[cpu].value
  }

  /** `(int)t->id` */
  function Pid(t: Thread): int {
    var low := t.id % TWO32;
    if low < TWO32 / 2 then low else low - TWO32
  }

  /** Whether a wait for `target` is for thread `t`. */
  predicate Matches(target: int, t: Thread) {
    target <= 0 || target == Pid(t)
  }

  function FindUnused(ts: seq<Thread>, from: nat := 0): (k: nat)
    requires from <= |ts|
    ensures from <= k <= |ts|
    ensures k < |ts| ==> ts[k].status == Unused
    ensures forall j :: from <= j < k ==> ts[j].status != Unused
    decreases |ts| - from
  {
    if from == |ts| || ts[from].status == Unused then from else FindUnused(ts, from + 1)
  }

  function FreshThread(id: nat): Thread {
    Thread(id, Ready, false, 1, None, 0, 0, 0, 0, 0, 0)
  }

  /** `scheduler_init`, on a machine whose processors have the kernel's space loaded. */
  function BootState(vm: Vm, kernel: nat): (s: Sched)
    ensures Shaped(s)
  {
    var idle := FreshThread(0).(status := Unused, priority := 0);
    Sched(seq(MAX_THREADS, _ => idle)[0 := FreshThread(0).(status := Running, cr3 := kernel)],
          seq(MAX_CPUS, _ => None)[0 := Some(0)], 1, 0, kernel, seq(MAX_CPUS, _ => kernel), vm)
  }

  /** `thread_alloc_slot`, then the filling of slot `k` by a child of thread `p`. */
  function Adopt(s: Sched, p: nat, k: nat, t: Thread): Sched
    requires Shaped(s) && p < MAX_THREADS && k < MAX_THREADS
  {
    s.(threads := s.threads[k := t][p := s.threads[p].(children := (s.threads[p].children + 1) % TWO32)],
       nextId := (s.nextId + 1) % TWO64)
  }

  function PickCpu(rr: nat, online: nat): (nat, nat) {
    if online == 0 then (0, rr) else (rr % online, (rr % online + 1) % online)
  }

  predicate Candidate(t: Thread, cpu: nat) {
    t.status == Ready && t.cpu == cpu
  }

  /** What `pick_next` has found after the first `n` slots: the candidate of the highest priority,
      and the lowest slot among those. */
  function Best(ts: seq<Thread>, cpu: nat, n: nat): (b: Option<nat>)
    requires n <= |ts|
    ensures b.None? ==> forall j :: 0 <= j < n ==> !Candidate(ts[j], cpu)
    ensures b.Some? ==> && b.value < n && Candidate(ts[b.value], cpu)
                        && (forall j :: 0 <= j < n && Candidate(ts[j], cpu) ==> ts[j].priority <= ts[b.value].priority)
                        && (forall j :: 0 <= j < b.value && Candidate(ts[j], cpu) ==> ts[j].priority < ts[b.value].priority)
  {
    if n == 0 then None else
    var b := Best(ts, cpu, n - 1);
    if Candidate(ts[n - 1], cpu) && (b.None? || ts[n - 1].priority > ts[b.value].priority) then Some(n - 1) else b
  }

  /** `pick_next` */
  function PickNext(ts: seq<Thread>, current: Option<nat>, cpu: nat): (i: nat)
    requires |ts| == MAX_THREADS && (current.Some? ==> current.value < MAX_THREADS)
    ensures i < MAX_THREADS
  {
    var b := Best(ts, cpu, MAX_THREADS);
    if b.Some? then b.value
    else if current.Some? && ts[current.value].status in {Running, Ready} then current.value
    else 0
  }

  function WakeOne(t: Thread, now: nat): Thread {
    if t.status == Sleeping && now >= t.wakeup then t.(status := Ready) else t
  }

  /** `wake_sleepers` */
  function Wake(ts: seq<Thread>, now: nat): (r: seq<Thread>)
    ensures |r| == |ts| && forall i :: 0 <= i < |ts| ==> r[i] == WakeOne(ts[i], now)
  {
    seq(|ts|, i requires 0 <= i < |ts| => WakeOne(ts[i], now))
  }

  /** The parent of an ending thread: one child less, and awake if it waited for it. */
  function Told(p: Thread, child: Thread): Thread {
    var q := p.(children := if p.children > 0 then p.children - 1 else 0);
    if q.status == Blocked && Matches(q.waitTarget, child) then q.(waitTarget := 0, status := Ready) else q
  }

  /** `thread_mark_zombie` */
  function MarkZombie(ts: seq<Thread>, i: nat, code: int): (r: seq<Thread>)
    requires i < |ts|
    ensures |r| == |ts|
  {
    var r := ts[i := ts[i].(exitCode := code, status := Zombie)];
    var p := ts[i].parent;
    if p.Some? && p.value < |ts| then r[p.value := Told(r[p.value], r[i])] else r
  }

  /** `do_switch` */
  function Switch(s: Sched, cpu: nat, next: nat): Sched
    requires On(s, cpu) && next < MAX_THREADS
  {
    var i := Cur(s, cpu);
    if i == next then s else
    var prev := s.threads[i];
    var ts := if prev.status == Running then s.threads[i := prev.(status := Ready)] else s.threads;
    var n := ts[next].(status := Running);
    s.(threads := ts[next := n], current := s.current[cpu := Some(next)],
       loaded := if n.cr3 != 0 && n.cr3 != prev.cr3 then s.loaded[cpu := n.cr3] else s.loaded)
  }

  /** `scheduler_on_tick`, which `scheduler_yield` repeats */
  function Tick(s: Sched, cpu: nat, now: nat): Sched
    requires On(s, cpu)
  {
    var ts := Wake(s.threads, now);
    Switch(s.(threads := ts), cpu, PickNext(ts, s.current[cpu], cpu))
  }

  /** `scheduler_fork`; whether the open files and the kernel stack could be had is an input. The
      result is the new thread's id, or None for -1. */
  function Fork(s: Sched, cpu: nat, filesOk: bool, stackOk: bool): (Sched, Option<nat>)
    requires On(s, cpu)
  {
    var p := Cur(s, cpu);
    if !s.threads[p].user then (s, None) else
    var k := FindUnused(s.threads);
    if k == MAX_THREADS then (s, None) else
    var parent := s.threads[p];
    var child := FreshThread(s.nextId).(user := true, cr3 := parent.cr3, priority := parent.priority, cpu := parent.cpu, parent := Some(p));
    var vm := RetainSpace(s.vm, child.cr3, s.kernel);
    if filesOk && stackOk then (Adopt(s, p, k, child).(vm := vm), Some(child.id))
    else (Adopt(s, p, k, child.(status := Unused)).(vm := ReleaseSpace(vm, child.cr3, s.kernel)), None)
  }

  /** `scheduler_on_exit` */
  function Exit(s: Sched, cpu: nat, code: int): Sched
    requires On(s, cpu)
  {
    var i := Cur(s, cpu);
    var ts := MarkZombie(s.threads, i, code);
    var n := PickNext(ts, s.current[cpu], cpu);
    Switch(s.(threads := ts), cpu, if n == i then 0 else n)
  }

  function FindId(ts: seq<Thread>, pid: int, from: nat := 0): (k: nat)
    requires from <= |ts|
    ensures from <= k <= |ts|
    ensures k < |ts| ==> ts[k].status != Unused && Pid(ts[k]) == pid
    ensures forall j :: from <= j < k ==> ts[j].status == Unused || Pid(ts[j]) != pid
    decreases |ts| - from
  {
    if from == |ts| || (ts[from].status != Unused && Pid(ts[from]) == pid) then from else FindId(ts, pid, from + 1)
  }

  /** `scheduler_kill` */
  function Kill(s: Sched, cpu: nat, pid: int, sig: int): (Sched, int)
    requires On(s, cpu)
  {
    var k := FindId(s.threads, pid);
    if k == MAX_THREADS || !s.threads[k].user then (s, -1)
    else if k == Cur(s, cpu) || s.threads[k].status == Zombie then (s, 0)
    else (s.(threads := MarkZombie(s.threads, k, -sig)), 0)
  }

  /** `scheduler_sleep` up to the yield that follows it */
  function Sleep(s: Sched, cpu: nat, until: nat): Sched
    requires On(s, cpu)
  {
    var i := Cur(s, cpu);
    s.(threads := s.threads[i := s.threads[i].(wakeup := until, status := Sleeping)])
  }

  predicate IsChild(t: Thread, parent: nat, pid: int, zombie: bool) {
    t.status != Unused && t.parent == Some(parent) && Matches(pid, t) && (zombie ==> t.status == Zombie)
  }

  /** `find_child` */
  function FindChild(ts: seq<Thread>, parent: nat, pid: int, zombie: bool, from: nat := 0): (k: nat)
    requires from <= |ts|
    ensures from <= k <= |ts|
    ensures k < |ts| ==> IsChild(ts[k], parent, pid, zombie)
    ensures forall j :: from <= j < k ==> !IsChild(ts[j], parent, pid, zombie)
    decreases |ts| - from
  {
    if from == |ts| || IsChild(ts[from], parent, pid, zombie) then from else FindChild(ts, parent, pid, zombie, from + 1)
  }

  datatype Waited = Reaped(id: nat) | NoChild | MustBlock

  /** `thread_release_resources` and the end of the slot. */
  function Reap(s: Sched, z: nat): Sched
    requires Shaped(s) && z < MAX_THREADS
  {
    var t := s.threads[z];
    if t.user && t.cr3 != 0 && t.cr3 != s.kernel
    then s.(threads := s.threads[z := t.(cr3 := 0, status := Unused)], vm := ReleaseSpace(s.vm, t.cr3, s.kernel))
    else s.(threads := s.threads[z := t.(status := Unused)])
  }

  /** `scheduler_waitpid` up to the yield of a caller that blocks */
  function WaitPid(s: Sched, cpu: nat, pid: int): (Sched, Waited)
    requires On(s, cpu)
  {
    var i := Cur(s, cpu);
    var z := FindChild(s.threads, i, pid, true);
    if z < MAX_THREADS then (Reap(s, z), Reaped(s.threads[z].id))
    else if FindChild(s.threads, i, pid, false) == MAX_THREADS then (s, NoChild)
    else (s.(threads := s.threads[i := s.threads[i].(waitTarget := pid, status := Blocked)]), MustBlock)
  }

  /** `scheduler_register_cpu_bootstrap` for a processor number in range */
  function RegisterCpu(s: Sched, cpu: nat): Sched
    requires Shaped(s) && cpu < MAX_CPUS
  {
    var k := FindUnused(s.threads);
    if k == MAX_THREADS then s else
    s.(threads := s.threads[k := FreshThread(s.nextId).(cr3 := s.kernel, cpu := cpu, status := Running)],
       current := s.current[cpu := Some(k)], nextId := (s.nextId + 1) % TWO64)
  }

  /** The stacks of a new thread: a kernel stack, which can be had or not, and for a user thread a
      stack in its space, which must not be missing. */
  function Stacks(s: Phys, user: bool, cr3: nat, kstackOk: bool): (Phys, bool) {
    if cr3 == 0 || !kstackOk then (s, false)
    else if user then GiveStack(s, cr3)
    else (s, true)
  }

  /** Slot `k` filled by a child of thread `p`, or emptied again; `phys` is the memory by then. */
  function Enroll(s: Sched, p: nat, k: nat, online: nat, user: bool, cr3: nat, phys: Phys, ok: bool): Sched
    requires Shaped(s) && p < MAX_THREADS && k < MAX_THREADS
  {
    var on := PickCpu(s.rr, online);
    var t := FreshThread(s.nextId).(user := user, cr3 := cr3, parent := Some(p), cpu := on.0, status := if ok then Ready else Unused);
    Adopt(s, p, k, t).(rr := on.1, vm := Vm(phys, s.vm.table))
  }

  /** `thread_create_kernel` (not a user thread, in the kernel's space) and `thread_create_user`, called
      on a running processor; whether the kernel stack could be had is an input. The new thread is a
      child of the current one. The result is its slot, if any. */
  function Create(s: Sched, cpu: nat, online: nat, user: bool, cr3: nat, kstackOk: bool): (Sched, Option<nat>)
    requires On(s, cpu)
  {
    var k := FindUnused(s.threads);
    if k == MAX_THREADS then (s, None) else
    var r := Stacks(s.vm.phys, user, cr3, kstackOk);
    (Enroll(s, Cur(s, cpu), k, online, user, cr3, r.0, r.1), if r.1 then Some(k) else None)
  }

  /** The end of `SYS_execve`: the calling user thread moves to the new space `cr3`. */
  function HandOver(s: Sched, cpu: nat, cr3: nat): Sched
    requires On(s, cpu)
  {
    var i := Cur(s, cpu);
    var was := s.threads[i].cr3;
    s.(threads := s.threads[i := s.threads[i].(cr3 := cr3)], loaded := s.loaded[cpu := cr3],
       vm := if was != 0 && was != s.kernel then ReleaseSpace(s.vm, was, s.kernel) else s.vm)
  }
}

/** What each call of the scheduler does, slot by slot. */
module ThreadSteps {
  import opened Basics
  import opened Align
  import opened Threads
  import opened ThreadLaws

  /** The slots from `ts` to `ts'` are the same but for slot `k`. */
  predicate OnlySlot(ts: seq<Thread>, ts': seq<Thread>, k: nat) {
    |ts'| == |ts| && forall j :: 0 <= j < |ts| && j != k ==> ts'[j] == ts[j]
  }

  // ---------------------------------------------------------------------------------------
  // waitpid
  // ---------------------------------------------------------------------------------------

  /** A pid is an id in 32 bits with a sign. */
  lemma PidIs(t: Thread)
    ensures -0x8000_0000 <= Pid(t) < 0x8000_0000 && (t.id - Pid(t)) % 0x1_0000_0000 == 0
  {
  }

  /** Slot `k` holds a child of slot `i`; a positive pid names it by its id. */
  predicate WaitedChild(ts: seq<Thread>, i: nat, pid: int, k: nat) {
    k < |ts| && ts[k].status != Unused && ts[k].parent == Some(i) && (pid > 0 ==> Pid(ts[k]) == pid)
  }

  /** Slot `k` is the lowest that holds such a child that has ended. */
  predicate FirstZombie(ts: seq<Thread>, i: nat, pid: int, k: nat) {
    && WaitedChild(ts, i, pid, k) && ts[k].status == Zombie
    && forall j: nat :: j < k ==> !(WaitedChild(ts, i, pid, j) && ts[j].status == Zombie)
  }

  lemma FoundZombie(ts: seq<Thread>, i: nat, pid: int, z: nat)
    requires z == FindChild(ts, i, pid, true)
    ensures z < |ts| ==> FirstZombie(ts, i, pid, z)
    ensures z == |ts| ==> forall k: nat :: WaitedChild(ts, i, pid, k) ==> ts[k].status != Zombie
  {
    forall k: nat | k < z ensures !(WaitedChild(ts, i, pid, k) && ts[k].status == Zombie) { assert !IsChild(ts[k], i, pid, true); }
  }

  lemma FoundChild(ts: seq<Thread>, i: nat, pid: int, z: nat)
    requires z == FindChild(ts, i, pid, false)
    ensures z < |ts| ==> WaitedChild(ts, i, pid, z)
    ensures z == |ts| ==> forall k: nat :: !WaitedChild(ts, i, pid, k)
  {
    forall k: nat | k < z ensures !WaitedChild(ts, i, pid, k) { assert !IsChild(ts[k], i, pid, false); }
  }

  /** `waitpid` answers with the id of the lowest matching child that has ended, and frees its slot; with -1
      exactly if no child matches, and nothing changes; otherwise the caller blocks on that pid. */
  lemma WaitExact(s: Sched, cpu: nat, pid: int)
    requires On(s, cpu)
    ensures var i, (t, r) := Cur(s, cpu), WaitPid(s, cpu, pid);
            && (r.Reaped? <==> exists k: nat :: WaitedChild(s.threads, i, pid, k) && s.threads[k].status == Zombie)
            && (r.Reaped? ==> exists k: nat :: FirstZombie(s.threads, i, pid, k) && r.id == s.threads[k].id
                                && t.threads[k] == s.threads[k].(status := Unused, cr3 := t.threads[k].cr3)
                                && (s.threads[k].user && s.threads[k].cr3 != s.kernel ==> t.threads[k].cr3 == 0)
                                && OnlySlot(s.threads, t.threads, k) && t.current == s.current && t.loaded == s.loaded)
            && (r.NoChild? <==> forall k: nat :: !WaitedChild(s.threads, i, pid, k))
            && (r.NoChild? ==> t == s)
            && (r.MustBlock? ==> t == s.(threads := t.threads) && OnlySlot(s.threads, t.threads, i)
                                 && t.threads[i] == s.threads[i].(status := Blocked, waitTarget := pid))
  {
    var i, ts := Cur(s, cpu), s.threads;
    var z := FindChild(ts, i, pid, true);
    FoundZombie(ts, i, pid, z);
    if z < MAX_THREADS {
      assert WaitedChild(ts, i, pid, z) && OnlySlot(ts, WaitPid(s, cpu, pid).0.threads, z);
    } else {
      FoundChild(ts, i, pid, FindChild(ts, i, pid, false));
    }
  }

  // ---------------------------------------------------------------------------------------
  // The tick
  // ---------------------------------------------------------------------------------------

  /** The thread sleeps and its time has come. */
  predicate Due(t: Thread, now: nat) {
    t.status == Sleeping && t.wakeup <= now
  }

  /** The thread waits for this processor, or does once it is awake. */
  predicate Runnable(t: Thread, cpu: nat, now: nat) {
    t.cpu == cpu && (t.status == Ready || Due(t, now))
  }

  /** Slot `n` is the lowest of those with the highest priority among the threads the processor can run. */
  predicate RunsNext(ts: seq<Thread>, cpu: nat, now: nat, n: nat) {
    && n < |ts| && Runnable(ts[n], cpu, now)
    && (forall j :: 0 <= j < |ts| && Runnable(ts[j], cpu, now) ==> ts[j].priority <= ts[n].priority)
    && (forall j :: 0 <= j < n && Runnable(ts[j], cpu, now) ==> ts[j].priority < ts[n].priority)
  }

  /** What the statuses are after slot `i` has given way to slot `n`. */
  predicate Switched(ts: seq<Thread>, ts': seq<Thread>, now: nat, i: nat, n: nat)
    requires i < |ts| && n < |ts|
  {
    && |ts'| == |ts|
    && (forall j :: 0 <= j < |ts| ==> ts'[j] == ts[j].(status := ts'[j].status))
    && (forall j :: 0 <= j < |ts| && j != i && j != n ==> ts'[j].status == if Due(ts[j], now) then Ready else ts[j].status)
    && (n != i ==> ts'[n].status == Running)
    && ts'[i].status == if Due(ts[i], now) || (n != i && ts[i].status == Running) then Ready else ts[i].status
  }

  /** A tick goes on with the thread of the highest priority that the processor can run, the lowest slot among
      equals, and with the current one only if there is no other. Of no thread does anything but the status
      change: sleepers whose time has come are ready, the thread taken runs, and the one it took over from
      is ready if it ran. */
  lemma TickExact(s: Sched, boot: seq<Option<nat>>, cpu: nat, now: nat) returns (n: nat)
    requires Seated(s, boot) && On(s, cpu)
    ensures var t, i := Tick(s, cpu, now), Cur(s, cpu);
            && t.current == s.current[cpu := Some(n)] && n < MAX_THREADS && Switched(s.threads, t.threads, now, i, n)
            && (if exists j: nat :: j < MAX_THREADS && Runnable(s.threads[j], cpu, now) then RunsNext(s.threads, cpu, now, n) else n == i)
            && (forall c :: 0 <= c < MAX_CPUS && c != cpu ==> t.loaded[c] == s.loaded[c])
  {
    var s1 := s.(threads := Wake(s.threads, now));
    WakeSeated(s, boot, now);
    PickIsSound(s1, boot, cpu);
    n := PickNext(s1.threads, s1.current[cpu], cpu);
    forall j | 0 <= j < MAX_THREADS ensures Candidate(s1.threads[j], cpu) <==> Runnable(s.threads[j], cpu, now) {}
    TickPicks(s.threads, s1.threads, cpu, now, n, Cur(s, cpu));
    TickSwitches(s, s1, cpu, now, n);
  }

  lemma TickSwitches(s: Sched, s1: Sched, cpu: nat, now: nat, n: nat)
    requires On(s, cpu) && s1 == s.(threads := Wake(s.threads, now)) && n < MAX_THREADS
    ensures var t := Switch(s1, cpu, n);
            && t.current == s.current[cpu := Some(n)] && Switched(s.threads, t.threads, now, Cur(s, cpu), n)
            && (forall c :: 0 <= c < MAX_CPUS && c != cpu ==> t.loaded[c] == s.loaded[c])
  {
    var i := Cur(s, cpu);
    assert s.current[cpu] == Some(i);
    if i == n { assert s.current == s.current[cpu := Some(n)]; }
  }

  /** After a tick exactly those threads sleep that slept and whose time has not come. */
  lemma TickSleepers(s: Sched, boot: seq<Option<nat>>, cpu: nat, now: nat)
    requires Seated(s, boot) && On(s, cpu)
    ensures var t := Tick(s, cpu, now);
            |t.threads| == MAX_THREADS && forall j :: 0 <= j < MAX_THREADS ==>
              (t.threads[j].status == Sleeping <==> s.threads[j].status == Sleeping && now < s.threads[j].wakeup)
  {
    var n := TickExact(s, boot, cpu, now);
  }

  lemma TickPicks(ts: seq<Thread>, us: seq<Thread>, cpu: nat, now: nat, n: nat, i: nat)
    requires |ts| == |us| == MAX_THREADS && n < MAX_THREADS && i < MAX_THREADS && us == Wake(ts, now)
    requires forall j :: 0 <= j < MAX_THREADS ==> (Candidate(us[j], cpu) <==> Runnable(ts[j], cpu, now))
    requires Picked(us, Some(i), cpu, n)
    ensures if exists j: nat :: j < MAX_THREADS && Runnable(ts[j], cpu, now) then RunsNext(ts, cpu, now, n) else n == i
  {
    forall j | 0 <= j < MAX_THREADS ensures us[j].priority == ts[j].priority {}
    assert us[n].status == Ready ==> Candidate(us[n], cpu);
  }

  // ---------------------------------------------------------------------------------------
  // New threads
  // ---------------------------------------------------------------------------------------

  /** Slot `k` is the lowest that is free. */
  predicate FirstFree(ts: seq<Thread>, k: nat) {
    k < |ts| && ts[k].status == Unused && forall j :: 0 <= j < k ==> ts[j].status != Unused
  }

  /** From `ts` to `ts'` slot `k` was filled by `t`, a child of slot `p`, which counts one more. */
  predicate Filled(ts: seq<Thread>, ts': seq<Thread>, p: nat, k: nat, t: Thread)
    requires p < |ts|
  {
    && |ts'| == |ts| && k < |ts| && k != p && ts'[k] == t
    && ts'[p] == ts[p].(children := (ts[p].children + 1) % TWO32)
    && forall j :: 0 <= j < |ts| && j != k && j != p ==> ts'[j] == ts[j]
  }

  /** Slot `k` is the lowest that is free; MAX_THREADS if none is. */
  predicate FreeSlot(ts: seq<Thread>, k: nat) {
    if exists j: nat :: j < |ts| && ts[j].status == Unused then FirstFree(ts, k) else k == |ts|
  }

  lemma FoundFree(ts: seq<Thread>)
    ensures FreeSlot(ts, FindUnused(ts))
  {
  }

  /** `fork` succeeds exactly for a user thread for which there are a free slot, copies of the open files and a
      kernel stack. The child is in the lowest free slot: ready, with the next id, and with the space, the
      priority and the processor of its parent. */
  lemma ForkExact(s: Sched, boot: seq<Option<nat>>, cpu: nat, filesOk: bool, stackOk: bool) returns (k: nat)
    requires Seated(s, boot) && On(s, cpu)
    ensures FreeSlot(s.threads, k)
    ensures var p, (t, r) := Cur(s, cpu), Fork(s, cpu, filesOk, stackOk);
            var parent := s.threads[p];
            var child := Thread(s.nextId, Ready, true, parent.priority, Some(p), 0, 0, 0, parent.cr3, 0, parent.cpu);
            && t.current == s.current && t.loaded == s.loaded
            && r == (if parent.user && filesOk && stackOk && k < MAX_THREADS then Some(s.nextId) else None)
            && (r.Some? ==> Filled(s.threads, t.threads, p, k, child) && t.nextId == (s.nextId + 1) % TWO64)
            && (r.None? && parent.user && k < MAX_THREADS ==> Filled(s.threads, t.threads, p, k, child.(status := Unused)))
            && (!parent.user || k == MAX_THREADS ==> t == s)
  {
    assert CpuOk(s, boot, cpu);
    k := FindUnused(s.threads);
    FoundFree(s.threads);
  }

  /** A new thread is in the lowest free slot, ready, with the next id, priority 1, a child of the current
      thread, on the next processor in turn; or nothing has come but a count. */
  lemma CreateMakes(s: Sched, boot: seq<Option<nat>>, cpu: nat, online: nat, user: bool, cr3: nat,
                    kstackOk: bool) returns (k: nat)
    requires Seated(s, boot) && On(s, cpu)
    ensures FreeSlot(s.threads, k)
    ensures var p, (t, r) := Cur(s, cpu), Create(s, cpu, online, user, cr3, kstackOk);
            var on := if online == 0 then 0 else s.rr % online;
            var made := Thread(s.nextId, Ready, user, 1, Some(p), 0, 0, 0, cr3, 0, on);
            && t.current == s.current && t.loaded == s.loaded
            && (r.Some? ==> r == Some(k) && k < MAX_THREADS && cr3 != 0 && kstackOk && Filled(s.threads, t.threads, p, k, made))
            && (k < MAX_THREADS && cr3 != 0 && kstackOk && !user ==> r.Some?)
            && (r.None? && k < MAX_THREADS ==> Filled(s.threads, t.threads, p, k, made.(status := Unused)))
            && (k < MAX_THREADS ==> t.nextId == (s.nextId + 1) % TWO64 && t.rr == if online == 0 then s.rr else (on + 1) % online)
            && (k == MAX_THREADS ==> t == s)
  {
    assert CpuOk(s, boot, cpu);
    k := FindUnused(s.threads);
    FoundFree(s.threads);
  }

  /** The processor of the thread made after `k` others. */
  function InTurn(rr: nat, online: nat, k: nat): nat
    decreases k
  {
    if k == 0 then PickCpu(rr, online).0 else InTurn(PickCpu(rr, online).1, online, k - 1)
  }

  /** Threads made one after the other are put on the processors in turn. */
  lemma {:induction false} RoundRobin(rr: nat, online: nat, k: nat)
    requires online > 0
    ensures InTurn(rr, online, 0) == rr % online
    ensures InTurn(rr, online, k) < online && InTurn(rr, online, k + 1) == (InTurn(rr, online, k) + 1) % online
    decreases k
  {
    var next := PickCpu(rr, online).1;
    Remainder(rr, online);
    Remainder(rr % online + 1, online);
    Remainder(next, online);
    if k > 0 { RoundRobin(next, online, k - 1); }
  }

  lemma Remainder(x: nat, n: nat)
    requires n > 0
    ensures x % n < n && (x < n ==> x % n == x)
  {
  }

  // ---------------------------------------------------------------------------------------
  // Ends and sleep
  // ---------------------------------------------------------------------------------------

  /** The parent of a thread that ends: a waiting one is awake, and every one counts one child less. */
  predicate Informed(p: Thread, p': Thread, child: Thread) {
    var waited := p.status == Blocked && (p.waitTarget <= 0 || p.waitTarget == Pid(child));
    && p' == p.(children := p'.children, status := p'.status, waitTarget := p'.waitTarget)
    && p'.children == (if p.children == 0 then 0 else p.children - 1)
    && p'.status == (if waited then Ready else p.status) && p'.waitTarget == if waited then 0 else p.waitTarget
  }

  /** Slot `i` has ended with `code`, its parent knows, and all other slots are as they were. */
  predicate EndedWith(ts: seq<Thread>, ts': seq<Thread>, i: nat, code: int)
    requires i < |ts|
  {
    && |ts'| == |ts| && ts'[i] == ts[i].(status := Zombie, exitCode := code)
    && (forall j :: 0 <= j < |ts| && j != i && ts[i].parent != Some(j) ==> ts'[j] == ts[j])
    && (ts[i].parent.Some? && ts[i].parent.value < |ts| ==> Informed(ts[ts[i].parent.value], ts'[ts[i].parent.value], ts[i]))
  }

  lemma ZombieExact(ts: seq<Thread>, i: nat, code: int)
    requires i < |ts| && ts[i].parent != Some(i)
    ensures EndedWith(ts, MarkZombie(ts, i, code), i, code)
  {
  }

  /** Slot `k` is the lowest that holds a thread with that pid; MAX_THREADS if none does. */
  predicate HasPid(ts: seq<Thread>, pid: int, k: nat) {
    if exists j: nat :: j < |ts| && ts[j].status != Unused && Pid(ts[j]) == pid
    then && k < |ts| && ts[k].status != Unused && Pid(ts[k]) == pid
         && forall j :: 0 <= j < k ==> ts[j].status == Unused || Pid(ts[j]) != pid
    else k == |ts|
  }

  /** `kill` is refused exactly if no user thread has that pid; it ends the thread unless that is the caller
      or has ended already. */
  lemma KillEnds(s: Sched, boot: seq<Option<nat>>, cpu: nat, pid: int, sig: int) returns (k: nat)
    requires Seated(s, boot) && On(s, cpu)
    ensures HasPid(s.threads, pid, k)
    ensures var (t, r) := Kill(s, cpu, pid, sig);
            && r == (if k < MAX_THREADS && s.threads[k].user then 0 else -1)
            && t == s.(threads := t.threads)
            && if r == 0 && k != Cur(s, cpu) && s.threads[k].status != Zombie then EndedWith(s.threads, t.threads, k, -sig) else t == s
  {
    k := FindId(s.threads, pid);
    if k < MAX_THREADS {
      assert ThreadOk(s, k);
      ZombieExact(s.threads, k, -sig);
    }
  }

  lemma SleepExact(s: Sched, cpu: nat, until: nat)
    requires On(s, cpu)
    ensures var t, i := Sleep(s, cpu, until), Cur(s, cpu);
            && t == s.(threads := t.threads) && OnlySlot(s.threads, t.threads, i)
            && t.threads[i] == s.threads[i].(status := Sleeping, wakeup := until)
  {
  }

  /** A processor that registers runs a thread of the kernel in the lowest free slot; without one it runs
      nothing. */
  lemma RegisterExact(s: Sched, cpu: nat) returns (k: nat)
    requires Shaped(s) && cpu < MAX_CPUS
    ensures FreeSlot(s.threads, k)
    ensures var t := RegisterCpu(s, cpu);
            && (k == MAX_THREADS ==> t == s)
            && (k < MAX_THREADS ==> && OnlySlot(s.threads, t.threads, k) && t.current == s.current[cpu := Some(k)]
                                    && t.threads[k] == Thread(s.nextId, Running, false, 1, None, 0, 0, 0, s.kernel, 0, cpu)
                                    && t.nextId == (s.nextId + 1) % TWO64 && t.loaded == s.loaded && t.vm == s.vm)
  {
    k := FindUnused(s.threads);
    FoundFree(s.threads);
  }
}

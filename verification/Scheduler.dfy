/** src/scheduler.c as it runs: the thread table updated in place. Each method does to the state
    what the function of the same step in Threads does to values, so the laws of ThreadRuns are
    about it. */
module Scheduler {
  import opened Basics
  import opened Align
  import SpaceLife
  import T = Threads
  import UserStack
  import Vmm

  class Scheduler {
    const threads: array<T.Thread>
    const current: array<Option<nat>>
    var nextId: nat
    var rr: nat
    var loaded: seq<nat>
    const memory: Vmm.Memory

    ghost predicate Shaped()
      reads this, threads, current, memory, memory.pmm, memory.pmm.bitmap, memory.mem, memory.table
    {
      memory.Shaped() && T.Shaped(Table())
    }

    /** The scheduler's own state, without the memory. */
    ghost function Table(): T.Sched
      requires memory.Shaped()
      reads this, threads, current, memory, memory.pmm, memory.pmm.bitmap, memory.mem, memory.table
    {
      T.Sched(threads[..], current[..], nextId, rr, memory.kernelRoot, loaded, memory.Spaces())
    }

    constructor (memory: Vmm.Memory)
      requires memory.Shaped()
      ensures this.memory == memory && Shaped() && fresh(threads) && fresh(current)
      ensures Table() == T.BootState(old(memory.Spaces()), memory.kernelRoot)
    {
      var kernel := memory.kernelRoot;
      threads := new T.Thread[T.MAX_THREADS](_ => T.FreshThread(0).(status := T.Unused, priority := 0));
      current := new Option<nat>[T.MAX_CPUS](_ => None);
      nextId, rr := 1, 0;
      loaded := seq(T.MAX_CPUS, _ => kernel);
      this.memory := memory;
      new;
      threads[0] := T.FreshThread(0).(status := T.Running, cr3 := kernel);
      current[0] := Some(0);
      assert Table() == T.BootState(old(memory.Spaces()), kernel);
    }

    method FindUnused() returns (k: nat)
      requires Shaped()
      ensures k == T.FindUnused(threads[..])
    {
      for i := 0 to threads.Length
        invariant T.FindUnused(threads[..], i) == T.FindUnused(threads[..])
      {
        if threads[i].status == T.Unused { return i; }
      }
      return threads.Length;
    }

    method PickCpu(online: nat) returns (cpu: nat)
      modifies `rr
      ensures (cpu, rr) == T.PickCpu(old(rr), online)
    {
      if online == 0 { return 0; }
      cpu := rr % online;
      rr := (cpu + 1) % online;
    }

    method PickNext(cpu: nat) returns (n: nat)
      requires Shaped() && cpu < T.MAX_CPUS
      ensures n == T.PickNext(threads[..], current[cpu], cpu)
    {
      var best: Option<nat>, bestPrio := None, -1;
      for i := 0 to threads.Length
        invariant best == T.Best(threads[..], cpu, i)
        invariant best.Some? ==> bestPrio == threads[best.value].priority
      {
        var t := threads[i];
        if t.status == T.Ready && t.cpu == cpu && (best.None? || t.priority > bestPrio) {
          best, bestPrio := Some(i), t.priority;
        }
      }
      if best.Some? { return best.value; }
      if current[cpu].Some? && (threads[current[cpu].value].status == T.Running || threads[current[cpu].value].status == T.Ready) {
        return current[cpu].value;
      }
      return 0;
    }

    method WakeSleepers(now: nat)
      requires Shaped()
      modifies threads
      ensures Shaped() && Table() == old(Table()).(threads := T.Wake(old(threads[..]), now))
    {
      for i := 0 to threads.Length
        invariant forall j :: 0 <= j < i ==> threads[j] == T.WakeOne(old(threads[j]), now)
        invariant forall j :: i <= j < threads.Length ==> threads[j] == old(threads[j])
      {
        if threads[i].status == T.Sleeping && now >= threads[i].wakeup {
          threads[i] := threads[i].(status := T.Ready);
        }
      }
      assert threads[..] == T.Wake(old(threads[..]), now);
    }

    method MarkZombie(i: nat, code: int)
      requires Shaped() && i < T.MAX_THREADS
      modifies threads
      ensures Shaped() && Table() == old(Table()).(threads := T.MarkZombie(old(threads[..]), i, code))
    {
      threads[i] := threads[i].(exitCode := code, status := T.Zombie);
      if threads[i].parent.Some? {
        var p := threads[i].parent.value;
        if threads[p].children > 0 { threads[p] := threads[p].(children := threads[p].children - 1); }
        if threads[p].status == T.Blocked && (threads[p].waitTarget <= 0 || threads[p].waitTarget == T.Pid(threads[i])) {
          threads[p] := threads[p].(waitTarget := 0, status := T.Ready);
        }
      }
      assert threads[..] == T.MarkZombie(old(threads[..]), i, code);
    }

    method DoSwitch(cpu: nat, next: nat)
      requires Shaped() && T.On(Table(), cpu) && next < T.MAX_THREADS
      modifies threads, current, `loaded
      ensures Shaped() && Table() == T.Switch(old(Table()), cpu, next)
    {
      if current[cpu] == Some(next) { return; }
      var i := current[cpu].value;
      var prevCr3 := threads[i].cr3;
      if threads[i].status == T.Running { threads[i] := threads[i].(status := T.Ready); }
      threads[next] := threads[next].(status := T.Running);
      current[cpu] := Some(next);
      if threads[next].cr3 != 0 && threads[next].cr3 != prevCr3 { loaded := loaded[cpu := threads[next].cr3]; }
    }

    /** `scheduler_on_tick` and `scheduler_yield` */
    method Tick(cpu: nat, now: nat)
      requires Shaped() && T.On(Table(), cpu)
      modifies threads, current, `loaded
      ensures Shaped() && Table() == T.Tick(old(Table()), cpu, now)
    {
      WakeSleepers(now);
      var n := PickNext(cpu);
      DoSwitch(cpu, n);
    }

    method OnExit(cpu: nat, code: int)
      requires Shaped() && T.On(Table(), cpu)
      modifies threads, current, `loaded
      ensures Shaped() && Table() == T.Exit(old(Table()), cpu, code)
    {
      var i := current[cpu].value;
      MarkZombie(i, code);
      var n := PickNext(cpu);
      DoSwitch(cpu, if n == i then 0 else n);
    }

    /** Slot `k` is filled by a child of thread `p`. */
    method Adopt(p: nat, k: nat, t: T.Thread, ghost s: T.Sched)
      requires Shaped() && s == Table() && p < T.MAX_THREADS && k < T.MAX_THREADS && p != k
      requires t.parent.Some? ==> t.parent.value < T.MAX_THREADS
      modifies threads, `nextId
      ensures Shaped() && Table() == T.Adopt(s, p, k, t)
    {
      threads[k] := t;
      threads[p] := threads[p].(children := (threads[p].children + 1) % T.TWO32);
      nextId := (nextId + 1) % TWO64;
    }

    /** A reference to a space is taken, and given back if it is not to be kept. */
    method Share(cr3: nat, keep: bool, ghost s: T.Sched)
      requires Shaped() && s == Table()
      modifies memory.pmm`freeCount, memory.pmm.bitmap, memory.mem, memory.table
      ensures Shaped()
      ensures Table() == s.(vm := var vm := SpaceLife.RetainSpace(s.vm, cr3, s.kernel);
                                  if keep then vm else SpaceLife.ReleaseSpace(vm, cr3, s.kernel))
    {
      memory.RetainUserSpace(cr3);
      if !keep { memory.ReleaseUserSpace(cr3); }
    }

    method Fork(cpu: nat, filesOk: bool, stackOk: bool) returns (r: Option<nat>)
      requires Shaped() && T.On(Table(), cpu) && threads[current[cpu].value].status != T.Unused
      modifies threads, `nextId, memory.pmm`freeCount, memory.pmm.bitmap, memory.mem, memory.table
      ensures Shaped() && (Table(), r) == T.Fork(old(Table()), cpu, filesOk, stackOk)
    {
      var p := current[cpu].value;
      if !threads[p].user { return None; }
      var k := FindUnused();
      if k == threads.Length { return None; }
      var child := T.FreshThread(nextId).(user := true, cr3 := threads[p].cr3, priority := threads[p].priority,
                                          cpu := threads[p].cpu, parent := Some(p));
      ghost var s := Table();
      Share(child.cr3, filesOk && stackOk, s);
      Adopt(p, k, if filesOk && stackOk then child else child.(status := T.Unused), Table());
      return if filesOk && stackOk then Some(child.id) else None;
    }

    method FindId(pid: int) returns (k: nat)
      requires Shaped()
      ensures k == T.FindId(threads[..], pid)
    {
      for i := 0 to threads.Length
        invariant T.FindId(threads[..], pid, i) == T.FindId(threads[..], pid)
      {
        if threads[i].status != T.Unused && T.Pid(threads[i]) == pid { return i; }
      }
      return threads.Length;
    }

    method Kill(cpu: nat, pid: int, sig: int) returns (r: int)
      requires Shaped() && T.On(Table(), cpu)
      modifies threads
      ensures Shaped() && (Table(), r) == T.Kill(old(Table()), cpu, pid, sig)
    {
      var k := FindId(pid);
      if k == threads.Length || !threads[k].user { return -1; }
      if current[cpu] == Some(k) || threads[k].status == T.Zombie { return 0; }
      MarkZombie(k, -sig);
      return 0;
    }

    method Sleep(cpu: nat, now: U64, ticks: U64)
      requires Shaped() && T.On(Table(), cpu)
      modifies threads
      ensures Shaped() && Table() == T.Sleep(old(Table()), cpu, Add64(now, ticks))
    {
      var i := current[cpu].value;
      threads[i] := threads[i].(wakeup := Add64(now, ticks), status := T.Sleeping);
    }

    method FindChild(parent: nat, pid: int, zombie: bool) returns (k: nat)
      requires Shaped()
      ensures k == T.FindChild(threads[..], parent, pid, zombie)
    {
      for i := 0 to threads.Length
        invariant T.FindChild(threads[..], parent, pid, zombie, i) == T.FindChild(threads[..], parent, pid, zombie)
      {
        var t := threads[i];
        if t.status == T.Unused || t.parent != Some(parent) { continue; }
        if pid > 0 && T.Pid(t) != pid { continue; }
        if zombie && t.status != T.Zombie { continue; }
        return i;
      }
      return threads.Length;
    }

    method Reap(z: nat)
      requires Shaped() && z < T.MAX_THREADS
      modifies threads, memory.pmm`freeCount, memory.pmm.bitmap, memory.mem, memory.table
      ensures Shaped() && Table() == T.Reap(old(Table()), z)
    {
      var t := threads[z];
      if t.user && t.cr3 != 0 && t.cr3 != memory.kernelRoot {
        memory.ReleaseUserSpace(t.cr3);
        threads[z] := threads[z].(cr3 := 0);
      }
      threads[z] := threads[z].(status := T.Unused);
    }

    method WaitPid(cpu: nat, pid: int) returns (r: T.Waited)
      requires Shaped() && T.On(Table(), cpu)
      modifies threads, memory.pmm`freeCount, memory.pmm.bitmap, memory.mem, memory.table
      ensures Shaped() && (Table(), r) == T.WaitPid(old(Table()), cpu, pid)
    {
      var i := current[cpu].value;
      var z := FindChild(i, pid, true);
      if z < threads.Length {
        r := T.Reaped(threads[z].id);
        Reap(z);
        return;
      }
      var any := FindChild(i, pid, false);
      if any == threads.Length { return T.NoChild; }
      threads[i] := threads[i].(waitTarget := pid, status := T.Blocked);
      return T.MustBlock;
    }

    method RegisterCpu(cpu: nat)
      requires Shaped() && cpu < T.MAX_CPUS
      modifies threads, current, `nextId
      ensures Shaped() && Table() == T.RegisterCpu(old(Table()), cpu)
    {
      var k := FindUnused();
      if k == threads.Length { return; }
      threads[k] := T.FreshThread(nextId).(cr3 := memory.kernelRoot, cpu := cpu, status := T.Running);
      nextId := (nextId + 1) % TWO64;
      current[cpu] := Some(k);
    }

    /** The stacks of a new thread */
    method Stacks(user: bool, cr3: nat, kstackOk: bool) returns (ok: bool)
      requires Shaped()
      modifies memory.pmm`freeCount, memory.pmm.bitmap, memory.mem
      ensures Shaped() && memory.Spaces().table == old(memory.Spaces().table)
      ensures (memory.State(), ok) == T.Stacks(old(memory.State()), user, cr3, kstackOk)
    {
      if cr3 == 0 || !kstackOk { return false; }
      if !user { return true; }
      ok := UserStack.GiveStack(memory, cr3);
    }

    /** The new thread's slot is filled, or emptied again; `was` is the state before its stacks. */
    method Enroll(p: nat, k: nat, online: nat, user: bool, cr3: nat, ok: bool, ghost was: T.Sched)
      requires Shaped() && p < T.MAX_THREADS && k < T.MAX_THREADS && p != k
      requires T.Shaped(was) && Table() == was.(vm := SpaceLife.Vm(memory.State(), was.vm.table))
      modifies threads, `nextId, `rr
      ensures Shaped() && Table() == T.Enroll(was, p, k, online, user, cr3, memory.State(), ok)
    {
      var on := PickCpu(online);
      var t := T.FreshThread(nextId).(user := user, cr3 := cr3, parent := Some(p), cpu := on, status := if ok then T.Ready else T.Unused);
      Adopt(p, k, t, Table());
    }

    /** `thread_create_kernel` and `thread_create_user` */
    method Create(cpu: nat, online: nat, user: bool, cr3: nat, kstackOk: bool) returns (r: Option<nat>)
      requires Shaped() && T.On(Table(), cpu) && threads[current[cpu].value].status != T.Unused
      modifies threads, `nextId, `rr, memory.pmm`freeCount, memory.pmm.bitmap, memory.mem
      ensures Shaped() && (Table(), r) == T.Create(old(Table()), cpu, online, user, cr3, kstackOk)
    {
      var p := current[cpu].value;
      var k := FindUnused();
      if k == threads.Length { return None; }
      var ok := Stacks(user, cr3, kstackOk);
      Enroll(p, k, online, user, cr3, ok, old(Table()));
      return if ok then Some(k) else None;
    }

    /** The hand-over at the end of `SYS_execve` */
    method HandOver(cpu: nat, cr3: nat)
      requires Shaped() && T.On(Table(), cpu)
      modifies threads, `loaded, memory.pmm`freeCount, memory.pmm.bitmap, memory.mem, memory.table
      ensures Shaped() && Table() == T.HandOver(old(Table()), cpu, cr3)
    {
      var i := current[cpu].value;
      var was := threads[i].cr3;
      threads[i] := threads[i].(cr3 := cr3);
      loaded := loaded[cpu := cr3];
      if was != 0 && was != memory.kernelRoot { memory.ReleaseUserSpace(was); }
    }
  }
}

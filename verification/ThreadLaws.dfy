/** What every step of the scheduler keeps, on all processors and over whole runs. */
module ThreadLaws {
  import opened Basics
  import opened PageTree
  import opened SpaceTable
  import opened SpaceLife
  import opened Threads

  /** The scheduler together with which thread is each processor's bootstrap thread, and the
      address spaces that a caller has created and not yet given to a thread. */
  datatype World = World(s: Sched, boot: seq<Option<nat>>, held: set<nat>)

  predicate Live(t: Thread) { t.status != Unused && t.status != Zombie }

  /** Thread `j` is a live child that thread `i` waits for. */
  predicate Awaited(ts: seq<Thread>, i: nat, j: nat)
    requires i < |ts| && j < |ts|
  {
    ts[j].parent == Some(i) && Live(ts[j]) && Matches(ts[i].waitTarget, ts[j])
  }

  /** A blocked thread waits for somebody. */
  ghost predicate WaitOk(ts: seq<Thread>, i: nat)
    requires i < |ts|
  {
    ts[i].status == Blocked ==> exists j {:trigger Awaited(ts, i, j)} :: 0 <= j < |ts| && Awaited(ts, i, j)
  }

  predicate ThreadOk(s: Sched, i: nat)
    requires Shaped(s) && i < MAX_THREADS
  {
    var t := s.threads[i];
    && t.parent != Some(i)
    && (t.status == Running ==> t.cpu < MAX_CPUS && s.current[t.cpu] == Some(i))
    && (t.status != Unused ==> t.cr3 != 0 && (t.user <==> t.cr3 != s.kernel))
  }

  predicate CpuOk(s: Sched, boot: seq<Option<nat>>, c: nat)
    requires Shaped(s) && c < MAX_CPUS && |boot| == MAX_CPUS
  {
    if s.current[c].None? then boot[c].None? && s.loaded[c] == s.kernel
    else
      var t := s.threads[s.current[c].value];
      && Live(t) && t.cpu == c && s.loaded[c] == t.cr3
      && boot[c].Some? && boot[c].value < MAX_THREADS
      && var b := s.threads[boot[c].value];
         b.cpu == c && !b.user && b.status == if boot[c] == s.current[c] then Running else Ready
  }

  /** Threads and processors agree. */
  ghost predicate Seated(s: Sched, boot: seq<Option<nat>>) {
    && Shaped(s) && |boot| == MAX_CPUS
    && (forall i {:trigger ThreadOk(s, i)} :: 0 <= i < MAX_THREADS ==> ThreadOk(s, i))
    && (forall c {:trigger CpuOk(s, boot, c)} :: 0 <= c < MAX_CPUS ==> CpuOk(s, boot, c))
  }

  ghost predicate NobodyForgotten(ts: seq<Thread>) {
    forall i {:trigger WaitOk(ts, i)} :: 0 <= i < |ts| ==> WaitOk(ts, i)
  }

  predicate HoldsSpace(t: Thread, d: nat) { t.status != Unused && t.user && t.cr3 == d }

  /** The number of threads that hold space `d`. */
  function Holders(ts: seq<Thread>, d: nat): nat {
    if ts == [] then 0 else Holders(ts[..|ts| - 1], d) + if HoldsSpace(ts[|ts| - 1], d) then 1 else 0
  }

  /** Every space has as many references as holders. */
  ghost predicate Counted(ts: seq<Thread>, held: set<nat>, table: Table) {
    && Distinct(table)
    && forall d: nat {:trigger Refs(table, d)} :: Refs(table, d) == Holders(ts, d) + if d in held then 1 else 0
  }

  ghost predicate Orderly(w: World) {
    && Seated(w.s, w.boot)
    && NobodyForgotten(w.s.threads)
    && Counted(w.s.threads, w.held, w.s.vm.table)
  }

  ghost predicate Safe(w: World, roles: Roles) {
    Orderly(w) && VmInv(w.s.vm, roles, w.s.kernel)
  }

  // ---------------------------------------------------------------------------------------
  // Counting holders
  // ---------------------------------------------------------------------------------------

  lemma {:induction false} HoldersUpdate(ts: seq<Thread>, i: nat, t: Thread, d: nat)
    requires i < |ts|
    ensures Holders(ts[i := t], d) + (if HoldsSpace(ts[i], d) then 1 else 0) == Holders(ts, d) + if HoldsSpace(t, d) then 1 else 0
    decreases |ts|
  {
    var n := |ts| - 1;
    if i < n {
      HoldersUpdate(ts[..n], i, t, d);
      assert ts[i := t][..n] == ts[..n][i := t];
    } else {
      assert ts[i := t][..n] == ts[..n];
    }
  }

  lemma {:induction false} SameHolders(ts: seq<Thread>, ts': seq<Thread>, d: nat)
    requires |ts| == |ts'| && forall i :: 0 <= i < |ts| ==> HoldsSpace(ts[i], d) == HoldsSpace(ts'[i], d)
    ensures Holders(ts, d) == Holders(ts', d)
    decreases |ts|
  {
    if ts != [] { SameHolders(ts[..|ts| - 1], ts'[..|ts| - 1], d); }
  }

  lemma {:induction false} AHolder(ts: seq<Thread>, i: nat, d: nat)
    requires i < |ts| && HoldsSpace(ts[i], d)
    ensures Holders(ts, d) > 0
    decreases |ts|
  {
    if i < |ts| - 1 { AHolder(ts[..|ts| - 1], i, d); }
  }

  /** The same hold on spaces, slot by slot. */
  predicate SameHold(t: Thread, t': Thread) {
    (t.status == Unused <==> t'.status == Unused) && t.user == t'.user && t.cr3 == t'.cr3
  }

  predicate AllSameHold(ts: seq<Thread>, ts': seq<Thread>) {
    |ts| == |ts'| && forall i :: 0 <= i < |ts| ==> SameHold(ts[i], ts'[i])
  }

  lemma SameHoldCounted(ts: seq<Thread>, ts': seq<Thread>, held: set<nat>, table: Table)
    requires Counted(ts, held, table) && AllSameHold(ts, ts')
    ensures Counted(ts', held, table)
  {
    forall d: nat ensures Refs(table, d) == Holders(ts', d) + if d in held then 1 else 0 { SameHolders(ts, ts', d); }
  }

  // ---------------------------------------------------------------------------------------
  // Picking and switching
  // ---------------------------------------------------------------------------------------

  /** What `pick_next` may answer: a thread of this processor that is ready, of the highest priority
      among the ready ones here and in the lowest slot of those; or, when none is ready here, the
      running current thread. */
  ghost predicate Picked(ts: seq<Thread>, current: Option<nat>, cpu: nat, n: nat)
    requires |ts| == MAX_THREADS
  {
    && n < MAX_THREADS && ts[n].cpu == cpu
    && if ts[n].status == Ready
       then && (forall j :: 0 <= j < MAX_THREADS && Candidate(ts[j], cpu) ==> ts[j].priority <= ts[n].priority)
            && (forall j :: 0 <= j < n && Candidate(ts[j], cpu) ==> ts[j].priority < ts[n].priority)
       else current == Some(n) && ts[n].status == Running && forall j :: 0 <= j < MAX_THREADS ==> !Candidate(ts[j], cpu)
  }

  /** The last-resort answer of `pick_next` is never given: unless the bootstrap thread runs, it is ready. */
  lemma PickIsSound(s: Sched, boot: seq<Option<nat>>, cpu: nat)
    requires Seated(s, boot) && On(s, cpu)
    ensures Picked(s.threads, s.current[cpu], cpu, PickNext(s.threads, s.current[cpu], cpu))
    ensures Best(s.threads, cpu, MAX_THREADS).Some? || s.threads[Cur(s, cpu)].status == Running
  {
    assert CpuOk(s, boot, cpu);
    var b := boot[cpu].value;
    assert b != Cur(s, cpu) ==> Candidate(s.threads[b], cpu);
  }

  lemma WakeSeated(s: Sched, boot: seq<Option<nat>>, now: nat)
    requires Seated(s, boot)
    ensures Seated(s.(threads := Wake(s.threads, now)), boot)
  {
    var t := s.(threads := Wake(s.threads, now));
    forall i | 0 <= i < MAX_THREADS ensures ThreadOk(t, i) { assert ThreadOk(s, i); }
    forall c | 0 <= c < MAX_CPUS ensures CpuOk(t, boot, c) { assert CpuOk(s, boot, c); }
  }

  /** Switching to a picked thread, from a thread that may have just ended. */
  lemma SwitchSeated(s: Sched, boot: seq<Option<nat>>, cpu: nat, n: nat)
    requires Shaped(s) && |boot| == MAX_CPUS && On(s, cpu) && n < MAX_THREADS
    requires forall i {:trigger ThreadOk(s, i)} :: 0 <= i < MAX_THREADS ==> ThreadOk(s, i)
    requires forall c {:trigger CpuOk(s, boot, c)} :: 0 <= c < MAX_CPUS && c != cpu ==> CpuOk(s, boot, c)
    requires var i := Cur(s, cpu);
             && s.threads[i].status != Unused && s.threads[i].cpu == cpu && s.loaded[cpu] == s.threads[i].cr3
             && boot[cpu].Some? && boot[cpu].value < MAX_THREADS
             && var b := s.threads[boot[cpu].value]; b.cpu == cpu && !b.user && b.status == if boot[cpu].value == i then Running else Ready
    requires s.threads[n].cpu == cpu && (s.threads[n].status == Ready || (n == Cur(s, cpu) && s.threads[n].status == Running))
    ensures Seated(Switch(s, cpu, n), boot)
  {
    var t := Switch(s, cpu, n);
    var i := Cur(s, cpu);
    forall k | 0 <= k < MAX_THREADS ensures ThreadOk(t, k) { assert ThreadOk(s, k); }
    forall c | 0 <= c < MAX_CPUS ensures CpuOk(t, boot, c) {
      assert ThreadOk(s, n) && ThreadOk(s, i);
      if c != cpu {
        assert CpuOk(s, boot, c);
      }
    }
  }

  // ---------------------------------------------------------------------------------------
  // Waiting
  // ---------------------------------------------------------------------------------------

  /** Nobody blocks, and no live thread ends or changes its parent or its id. */
  predicate WaitsKept(ts: seq<Thread>, ts': seq<Thread>) {
    && |ts'| == |ts|
    && (forall i :: 0 <= i < |ts| && ts'[i].status == Blocked ==> ts[i].status == Blocked && ts'[i].waitTarget == ts[i].waitTarget)
    && (forall i :: 0 <= i < |ts| && Live(ts[i]) ==> Live(ts'[i]) && ts'[i].parent == ts[i].parent && ts'[i].id == ts[i].id)
  }

  lemma WaitsKeptLaw(ts: seq<Thread>, ts': seq<Thread>)
    requires NobodyForgotten(ts) && WaitsKept(ts, ts')
    ensures NobodyForgotten(ts')
  {
    forall i | 0 <= i < |ts'| && ts'[i].status == Blocked ensures WaitOk(ts', i) {
      assert WaitOk(ts, i);
      var j :| 0 <= j < |ts| && Awaited(ts, i, j);
      assert Awaited(ts', i, j);
    }
  }

  /** The end of a thread wakes its parent if that waited for it, so whoever still waits has
      another live child to wait for. */
  lemma ZombieWakes(ts: seq<Thread>, k: nat, code: int)
    requires k < |ts| && NobodyForgotten(ts) && ts[k].parent != Some(k)
    requires forall i :: 0 <= i < |ts| && ts[i].parent.Some? ==> ts[i].parent.value < |ts|
    ensures var r := MarkZombie(ts, k, code);
            && NobodyForgotten(r)
            && (forall p: nat :: p < |ts| && ts[p].status == Blocked && ts[k].parent == Some(p) && Matches(ts[p].waitTarget, ts[k])
                                 ==> r[p].status == Ready)
  {
    var r := MarkZombie(ts, k, code);
    forall i | 0 <= i < |r| && r[i].status == Blocked ensures WaitOk(r, i) {
      assert WaitOk(ts, i);
      var j :| 0 <= j < |ts| && Awaited(ts, i, j);
      assert Awaited(r, i, j);
    }
  }

  /** A thread that is made to block waits for a live child. */
  lemma BlockWaits(ts: seq<Thread>, i: nat, pid: int)
    requires i < |ts| && NobodyForgotten(ts) && ts[i].parent != Some(i)
    requires FindChild(ts, i, pid, true) == |ts| && FindChild(ts, i, pid, false) < |ts|
    ensures NobodyForgotten(ts[i := ts[i].(waitTarget := pid, status := Blocked)])
  {
    var r := ts[i := ts[i].(waitTarget := pid, status := Blocked)];
    var k := FindChild(ts, i, pid, false);
    assert !IsChild(ts[k], i, pid, true);
    forall p | 0 <= p < |r| && r[p].status == Blocked ensures WaitOk(r, p) {
      if p == i {
        assert Awaited(r, i, k);
      } else {
        assert WaitOk(ts, p);
        var j :| 0 <= j < |ts| && Awaited(ts, p, j);
        assert Awaited(r, p, j);
      }
    }
  }

  /** Nothing that waiting and counting look at changes, except that nobody blocks anew. */
  predicate Quiet(ts: seq<Thread>, ts': seq<Thread>) {
    WaitsKept(ts, ts') && AllSameHold(ts, ts')
  }

  lemma QuietLaw(ts: seq<Thread>, ts': seq<Thread>, held: set<nat>, table: Table)
    requires NobodyForgotten(ts) && Counted(ts, held, table) && Quiet(ts, ts')
    ensures NobodyForgotten(ts') && Counted(ts', held, table)
  {
    WaitsKeptLaw(ts, ts');
    SameHoldCounted(ts, ts', held, table);
  }

  lemma WakeQuiet(ts: seq<Thread>, now: nat)
    ensures Quiet(ts, Wake(ts, now))
  {
  }

  lemma SwitchQuiet(s: Sched, cpu: nat, n: nat)
    requires On(s, cpu) && n < MAX_THREADS && (n == Cur(s, cpu) || s.threads[n].status == Ready)
    ensures var t := Switch(s, cpu, n); Quiet(s.threads, t.threads) && t.vm == s.vm && t.kernel == s.kernel
  {
  }

  // ---------------------------------------------------------------------------------------
  // References
  // ---------------------------------------------------------------------------------------

  lemma RetainCounted(ts: seq<Thread>, k: nat, t: Thread, held: set<nat>, table: Table, kernel: nat)
    requires Counted(ts, held, table) && k < |ts| && ts[k].status == Unused
    requires t.status != Unused && t.user && t.cr3 != kernel && Refs(table, t.cr3) > 0
    ensures Counted(ts[k := t], held, Retain(table, t.cr3, kernel))
  {
    var u := Retain(table, t.cr3, kernel);
    RetainLaw(table, t.cr3, kernel, t.cr3);
    forall d: nat ensures Refs(u, d) == Holders(ts[k := t], d) + if d in held then 1 else 0 {
      RetainLaw(table, t.cr3, kernel, d);
      HoldersUpdate(ts, k, t, d);
    }
  }

  /** A slot gives its space up. */
  lemma ReleaseCounted(ts: seq<Thread>, k: nat, t: Thread, held: set<nat>, table: Table, kernel: nat)
    requires Counted(ts, held, table) && k < |ts| && HoldsSpace(ts[k], ts[k].cr3) && ts[k].cr3 != kernel
    requires t.status == Unused
    ensures Refs(table, ts[k].cr3) > 0 && Counted(ts[k := t], held, Release(table, ts[k].cr3, kernel).0)
  {
    var cr3 := ts[k].cr3;
    AHolder(ts, k, cr3);
    var u := Release(table, cr3, kernel).0;
    ReleaseLaw(table, cr3, kernel, cr3);
    forall d: nat ensures Refs(u, d) == Holders(ts[k := t], d) + if d in held then 1 else 0 {
      ReleaseLaw(table, cr3, kernel, d);
      HoldersUpdate(ts, k, t, d);
    }
  }

  /** A slot moves from its space to one that was held. */
  lemma MoveCounted(ts: seq<Thread>, k: nat, cr3: nat, held: set<nat>, table: Table, kernel: nat)
    requires Counted(ts, held, table) && k < |ts| && HoldsSpace(ts[k], ts[k].cr3) && ts[k].cr3 != kernel
    requires cr3 in held
    ensures Refs(table, ts[k].cr3) > 0
    ensures Counted(ts[k := ts[k].(cr3 := cr3)], held - {cr3}, Release(table, ts[k].cr3, kernel).0)
  {
    var was, t := ts[k].cr3, ts[k].(cr3 := cr3);
    AHolder(ts, k, was);
    var u := Release(table, was, kernel).0;
    ReleaseLaw(table, was, kernel, was);
    forall d: nat ensures Refs(u, d) == Holders(ts[k := t], d) + if d in held - {cr3} then 1 else 0 {
      ReleaseLaw(table, was, kernel, d);
      HoldersUpdate(ts, k, t, d);
    }
  }

  /** A slot takes over a space that was held. */
  lemma TakeCounted(ts: seq<Thread>, k: nat, t: Thread, held: set<nat>, table: Table)
    requires Counted(ts, held, table) && k < |ts| && ts[k].status == Unused
    requires t.status != Unused && t.user && t.cr3 in held
    ensures Counted(ts[k := t], held - {t.cr3}, table)
  {
    forall d: nat ensures Refs(table, d) == Holders(ts[k := t], d) + if d in held - {t.cr3} then 1 else 0 {
      HoldersUpdate(ts, k, t, d);
    }
  }

  /** A slot that holds nothing is put in the place of one that holds nothing. */
  lemma IdleCounted(ts: seq<Thread>, k: nat, t: Thread, held: set<nat>, table: Table)
    requires Counted(ts, held, table) && k < |ts|
    requires (ts[k].status == Unused || !ts[k].user) && (t.status == Unused || !t.user)
    ensures Counted(ts[k := t], held, table)
  {
    forall d: nat ensures Refs(table, d) == Holders(ts[k := t], d) + if d in held then 1 else 0 {
      HoldersUpdate(ts, k, t, d);
    }
  }

  /** The space of a live user thread has references, so it exists as a tree. */
  lemma HeldIsRoot(ts: seq<Thread>, i: nat, held: set<nat>, vm: Vm, roles: Roles, kernel: nat)
    requires i < |ts| && ts[i].status != Unused && ts[i].user && Counted(ts, held, vm.table) && VmInv(vm, roles, kernel)
    ensures Refs(vm.table, ts[i].cr3) > 0 && IsRoot(roles, ts[i].cr3)
  {
    AHolder(ts, i, ts[i].cr3);
  }
}

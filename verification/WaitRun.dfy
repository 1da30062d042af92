/** A run from boot in which a thread blocks in `waitpid` and its child's exit wakes it. */
module WaitRun {
  import opened Basics
  import opened PageTree
  import opened SpaceLife
  import opened Threads
  import opened ThreadLaws
  import opened ThreadRuns
  import opened ThreadSteps
  import F = ThreadFaults

  /** A thread of the kernel in slot `j`, the child of the one in the slot before. */
  predicate SlotIs(t: Thread, st: Status, j: nat) {
    t.status == st && !t.user && t.priority == 1 && t.cpu == 0 && t.id == j && t.parent == if j == 0 then None else Some(j - 1)
  }

  /** The first slots hold such threads, with these statuses, and slot `cur` is the current one. */
  predicate Scene(s: Sched, st: seq<Status>, cur: nat) {
    && Shaped(s) && |st| <= 3 && s.current[0] == Some(cur) && cur < |st| && s.nextId == |st| && s.kernel != 0
    && (forall j :: 0 <= j < |st| ==> SlotIs(s.threads[j], st[j], j))
    && (forall j :: |st| <= j < MAX_THREADS ==> s.threads[j].status == Unused)
  }

  /** The world is at that point of a run from `w0`. */
  ghost predicate At(w0: World, ops: seq<Op>, w: World, roles: Roles, st: seq<Status>, cur: nat) {
    && Allowed(w0, ops) && w == Run(w0, ops) && Safe(w, roles) && Scene(w.s, st, cur)
    && w.boot == w0.boot && |w0.boot| == MAX_CPUS && w0.boot[0] == Some(0)
  }

  lemma Goes(w0: World, ops: seq<Op>, w: World, roles: Roles, st: seq<Status>, cur: nat, op: Op) returns (w': World, after: Roles)
    requires At(w0, ops, w, roles, st, cur) && Enabled(w, op)
    ensures w' == Step(w, op) && Allowed(w0, ops + [op]) && w' == Run(w0, ops + [op])
    ensures Safe(w', after) && w'.s.kernel == w.s.kernel
  {
    F.RunSnoc(w0, ops, op);
    w' := Step(w, op);
    after := StepSafe(w, roles, op);
  }

  lemma MakesScene(s: Sched, boot: seq<Option<nat>>, st: seq<Status>)
    requires Seated(s, boot) && 1 <= |st| <= 2 && Scene(s, st, |st| - 1) && Unused !in st
    ensures Scene(Create(s, 0, 1, false, s.kernel, true).0, st + [Ready], |st| - 1)
  {
    var k := CreateMakes(s, boot, 0, 1, false, s.kernel, true);
    assert s.threads[|st|].status == Unused && CpuOk(s, boot, 0);
    assert forall j :: 0 <= j < |st| ==> SlotIs(s.threads[j], st[j], j) && st[j] != Unused;
    assert k == |st|;
    var t := Create(s, 0, 1, false, s.kernel, true).0;
    forall j | 0 <= j < |st| + 1 ensures SlotIs(t.threads[j], (st + [Ready])[j], j) {
      if j < |st| { assert SlotIs(s.threads[j], st[j], j); }
    }
  }

  /** The current thread, the last one, makes another. */
  lemma Makes(w0: World, ops: seq<Op>, w: World, roles: Roles, st: seq<Status>) returns (w': World, after: Roles, op: Op)
    requires 1 <= |st| <= 2 && At(w0, ops, w, roles, st, |st| - 1) && Unused !in st
    ensures At(w0, ops + [op], w', after, st + [Ready], |st| - 1)
  {
    op := Created(0, 1, false, w.s.kernel, true);
    MakesScene(w.s, w.boot, st);
    w', after := Goes(w0, ops, w, roles, st, |st| - 1, op);
  }

  /** The statuses after the processor went from slot `cur` to slot `n`. */
  function Passed(st: seq<Status>, cur: nat, n: nat): seq<Status>
    requires cur < |st| && n < |st|
  {
    (if st[cur] == Running then st[cur := Ready] else st)[n := Running]
  }

  lemma TicksScene(s: Sched, boot: seq<Option<nat>>, st: seq<Status>, cur: nat, n: nat)
    requires Seated(s, boot) && Scene(s, st, cur) && n < |st| && n != cur && st[n] == Ready && Sleeping !in st
    requires forall j :: 0 <= j < n ==> st[j] != Ready
    ensures Scene(Tick(s, 0, 0), Passed(st, cur, n), n)
    ensures forall j :: 0 <= j < MAX_THREADS ==> Tick(s, 0, 0).threads[j].waitTarget == s.threads[j].waitTarget
  {
    var m := TickExact(s, boot, 0, 0);
    assert SlotIs(s.threads[n], st[n], n) && Runnable(s.threads[n], 0, 0);
    NextSlot(s, st, cur, n, m);
    SceneAfter(s, st, cur, n, Tick(s, 0, 0));
  }

  lemma NextSlot(s: Sched, st: seq<Status>, cur: nat, n: nat, m: nat)
    requires Scene(s, st, cur) && n < |st| && st[n] == Ready && Sleeping !in st && (forall j :: 0 <= j < n ==> st[j] != Ready)
    requires RunsNext(s.threads, 0, 0, m)
    ensures m == n
  {
    assert SlotIs(s.threads[n], st[n], n) && Runnable(s.threads[n], 0, 0);
    assert m < |st| && SlotIs(s.threads[m], st[m], m);
  }

  lemma SceneAfter(s: Sched, st: seq<Status>, cur: nat, n: nat, t: Sched)
    requires Scene(s, st, cur) && n < |st| && n != cur && st[n] == Ready && Sleeping !in st && Shaped(t)
    requires Switched(s.threads, t.threads, 0, cur, n) && t.current == s.current[0 := Some(n)]
    requires t.nextId == s.nextId && t.kernel == s.kernel
    ensures Scene(t, Passed(st, cur, n), n)
  {
    forall j | 0 <= j < |st| ensures SlotIs(t.threads[j], Passed(st, cur, n)[j], j) { assert SlotIs(s.threads[j], st[j], j); }
  }

  /** The processor goes over to the thread it is to run next. */
  lemma Ticks(w0: World, ops: seq<Op>, w: World, roles: Roles, st: seq<Status>, cur: nat, n: nat)
    returns (w': World, after: Roles, op: Op)
    requires At(w0, ops, w, roles, st, cur) && n < |st| && n != cur && st[n] == Ready && Sleeping !in st
    requires forall j :: 0 <= j < n ==> st[j] != Ready
    ensures At(w0, ops + [op], w', after, Passed(st, cur, n), n) && w'.s.threads[1].waitTarget == w.s.threads[1].waitTarget
  {
    op := Ticked(0, 0);
    TicksScene(w.s, w.boot, st, cur, n);
    w', after := Goes(w0, ops, w, roles, st, cur, op);
  }

  lemma Waits(w0: World, ops: seq<Op>, w: World, roles: Roles) returns (w': World, after: Roles, op: Op)
    requires At(w0, ops, w, roles, [Ready, Running, Ready], 1)
    ensures op == WaitedFor(0, -1) && At(w0, ops + [op], w', after, [Ready, Blocked, Ready], 1)
    ensures w'.s.threads[1].waitTarget == -1
  {
    op := WaitedFor(0, -1);
    WaitExact(w.s, 0, -1);
    assert SlotIs(w.s.threads[2], Ready, 2) && WaitedChild(w.s.threads, 1, -1, 2);
    forall k: nat | WaitedChild(w.s.threads, 1, -1, k) ensures w.s.threads[k].status != Zombie {
      assert k < 3 ==> SlotIs(w.s.threads[k], [Ready, Running, Ready][k], k);
    }
    w', after := Goes(w0, ops, w, roles, [Ready, Running, Ready], 1, op);
  }

  lemma Exits(w0: World, ops: seq<Op>, w: World, roles: Roles, code: int) returns (w': World, after: Roles, op: Op)
    requires At(w0, ops, w, roles, [Ready, Blocked, Running], 2) && w.s.threads[1].waitTarget == -1
    ensures op == Exited(0, code) && Allowed(w0, ops + [op]) && w' == Run(w0, ops + [op])
    ensures |w'.s.threads| == MAX_THREADS && w'.s.threads[1].status == Ready && w'.s.threads[2].status == Zombie
  {
    op := Exited(0, code);
    assert SlotIs(w.s.threads[0], Ready, 0) && SlotIs(w.s.threads[1], Blocked, 1) && SlotIs(w.s.threads[2], Running, 2);
    ExitOrderly(w, 0, code);
    var n := ExitPick(w, 0, code);
    var ts := MarkZombie(w.s.threads, 2, code);
    ZombieExact(w.s.threads, 2, code);
    assert WaitsFor(w.s.threads, 1, 2) && ts[0] == w.s.threads[0];
    assert Candidate(ts[0], 0);
    assert n == 0;
    w', after := Goes(w0, ops, w, roles, [Ready, Blocked, Running], 2, op);
  }

  lemma Begins(vm: Vm, kernel: nat)
    requires VmInv(vm, map[], kernel) && kernel != 0 && forall i :: 0 <= i < |vm.table| ==> vm.table[i].refs == 0
    ensures At(Boot(vm, kernel), [], Boot(vm, kernel), map[], [Running], 0)
  {
    BootSafe(vm, kernel);
  }

  /** From boot, on every machine: a thread makes a child and waits for it, which blocks it; when the child
      exits it is ready again. */
  lemma BlockedThenReady(vm: Vm, kernel: nat, code: int) returns (before: seq<Op>, later: seq<Op>)
    requires VmInv(vm, map[], kernel) && kernel != 0 && forall i :: 0 <= i < |vm.table| ==> vm.table[i].refs == 0
    ensures Allowed(Boot(vm, kernel), before) && Allowed(Boot(vm, kernel), later) && before <= later
    ensures var s := Run(Boot(vm, kernel), before).s; |s.threads| == MAX_THREADS && s.threads[1].status == Blocked
    ensures var s := Run(Boot(vm, kernel), later).s; |s.threads| == MAX_THREADS && s.threads[1].status == Ready
  {
    Begins(vm, kernel);
    var w, roles;
    before, w, roles := Blocks(Boot(vm, kernel));
    later := Resumes(Boot(vm, kernel), before, w, roles, code);
  }

  lemma Blocks(w0: World) returns (before: seq<Op>, w: World, roles: Roles)
    requires At(w0, [], w0, map[], [Running], 0)
    ensures At(w0, before, w, roles, [Ready, Blocked, Ready], 1) && w.s.threads[1].waitTarget == -1
  {
    var w1, r1, o1 := Makes(w0, [], w0, map[], [Running]);
    assert [Running] + [Ready] == [Running, Ready];
    var w2, r2, o2 := Ticks(w0, [] + [o1], w1, r1, [Running, Ready], 0, 1);
    assert Passed([Running, Ready], 0, 1) == [Ready, Running];
    before, w, roles := BlocksThen(w0, [] + [o1] + [o2], w2, r2);
  }

  lemma BlocksThen(w0: World, ops: seq<Op>, w2: World, r2: Roles) returns (before: seq<Op>, w: World, roles: Roles)
    requires At(w0, ops, w2, r2, [Ready, Running], 1)
    ensures At(w0, before, w, roles, [Ready, Blocked, Ready], 1) && w.s.threads[1].waitTarget == -1
  {
    var w3, r3, o3 := Makes(w0, ops, w2, r2, [Ready, Running]);
    assert [Ready, Running] + [Ready] == [Ready, Running, Ready];
    var o4;
    w, roles, o4 := Waits(w0, ops + [o3], w3, r3);
    before := ops + [o3] + [o4];
  }

  lemma Resumes(w0: World, before: seq<Op>, w4: World, r4: Roles, code: int) returns (later: seq<Op>)
    requires At(w0, before, w4, r4, [Ready, Blocked, Ready], 1) && w4.s.threads[1].waitTarget == -1
    ensures Allowed(w0, later) && before <= later
    ensures var s := Run(w0, later).s; |s.threads| == MAX_THREADS && s.threads[1].status == Ready
  {
    var w5, r5, o5 := Ticks(w0, before, w4, r4, [Ready, Blocked, Ready], 1, 0);
    assert Passed([Ready, Blocked, Ready], 1, 0) == [Running, Blocked, Ready];
    var w6, r6, o6 := Ticks(w0, before + [o5], w5, r5, [Running, Blocked, Ready], 0, 2);
    assert Passed([Running, Blocked, Ready], 0, 2) == [Ready, Blocked, Running];
    var w7, r7, o7 := Exits(w0, before + [o5] + [o6], w6, r6, code);
    later := before + [o5] + [o6] + [o7];
  }
}

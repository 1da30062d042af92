/** Two runs from boot that end with a step the callers of the scheduler must not take. */
module ThreadFaults {
  import opened Basics
  import opened Paging
  import opened PageTree
  import opened PageMapLaws
  import opened Spaces
  import opened PageRuns
  import opened TableNeeds
  import opened SpaceTable
  import opened SpaceLife
  import opened StackOps
  import opened Threads
  import opened ThreadLaws
  import opened ThreadRuns
  import Pmm

  // ---------------------------------------------------------------------------------------
  // Machines with room
  // ---------------------------------------------------------------------------------------

  /** From frame `a` on all frames are free, and there are `n` of them at least. */
  ghost predicate Roomy(s: Phys, a: nat, n: nat) {
    |s.used| == |s.mem| && 0 < a && a + n <= |s.used| && s.used[0] && forall f :: a <= f < |s.used| ==> !s.used[f]
  }

  lemma AllocTail(used: seq<bool>, a: nat, n: nat)
    requires 0 < n && 0 < a && a + n <= |used| && used[0] && forall f :: a <= f < |used| ==> !used[f]
    ensures var (u, k) := Pmm.Alloc(used, n);
            k != 0 && k + n <= |used| && |u| == |used| && u[0] && forall f :: a + n <= f < |used| ==> !u[f]
  {
    assert Pmm.FreeRun(used, a, n);
    Pmm.AllocFirstFit(used, n);
  }

  lemma FrameTail(s: Phys, content: Frame, a: nat, n: nat) returns (b: nat, m: nat)
    requires Roomy(s, a, n) && n > 0
    ensures b == a + 1 && n == m + 1 && AllocFrame(s, content).1 != 0 && Roomy(AllocFrame(s, content).0, b, m)
  {
    b, m := a + 1, n - 1;
    AllocTail(s.used, a, 1);
  }

  lemma RoomyLess(s: Phys, a: nat, n: nat, b: nat, m: nat)
    requires Roomy(s, a, n) && a <= b && b + m <= a + n
    ensures Roomy(s, b, m)
  {
  }

  lemma {:induction false} EnsureTail(s: Phys, root: nat, p: Path, flags: Flags, a: nat, n: nat, b: nat, m: nat)
    requires Roomy(s, a, n) && b == a + Len(p) && n == m + Len(p)
    ensures Roomy(Ensure(s, root, p, flags).0, b, m)
  {
    if p.Sub? {
      EnsureTail(s, root, p.up, flags, a, n, b - 1, m + 1);
      var (s1, t) := Ensure(s, root, p.up, flags);
      RoomyLess(s1, b - 1, m + 1, b, m);
      if t.Some? && !PresentAt(s1.mem, t.value, p.i) {
        var b', m' := FrameTail(s1, ZeroTable(), b - 1, m + 1);
      }
    }
  }

  lemma MapTail(s: Phys, root: nat, v: nat, flags: Flags, a: nat, n: nat)
    requires Roomy(s, a, n) && n >= 4 && UserPage(v) && MapFresh(s, root, PathOf(v), flags).1
    ensures Roomy(MapFresh(s, root, PathOf(v), flags).0, a + 4, n - 4)
  {
    PathOfPage(v);
    var b, m := FrameTail(s, ZeroPage(), a, n);
    EnsureTail(AllocFrame(s, ZeroPage()).0, root, PathOf(v).up, TableFlags(flags.user), b, m, b + 3, m - 3);
  }

  lemma RoomyCount(used: seq<bool>, a: nat, n: nat)
    requires a + n <= |used| && forall f :: a <= f < |used| ==> !used[f]
    ensures n <= Pmm.CountFree(used)
  {
    Pmm.RunFitsCount(used, a, n);
  }

  // ---------------------------------------------------------------------------------------
  // Runs
  // ---------------------------------------------------------------------------------------

  lemma {:induction false} RunSnoc(w: World, ops: seq<Op>, op: Op)
    requires Allowed(w, ops) && var v := Run(w, ops); Shaped(v.s) && |v.boot| == MAX_CPUS && Enabled(v, op)
    ensures Allowed(w, ops + [op]) && Run(w, ops + [op]) == Step(Run(w, ops), op)
    decreases |ops|
  {
    if ops == [] {
      assert [op][1..] == [] && ([] + [op]) == [op];
      assert Allowed(Step(w, op), []) && Run(Step(w, op), []) == Step(w, op);
    } else {
      RunSnoc(Step(w, ops[0]), ops[1..], op);
      assert (ops + [op])[1..] == ops[1..] + [op] && (ops + [op])[0] == ops[0];
    }
  }

  /** A machine as `scheduler_init` finds it, with no space yet and `n` frames free at its end. */
  ghost predicate Bootable(vm: Vm, kernel: nat, a: nat, n: nat) {
    && VmInv(vm, map[], kernel) && kernel != 0 && vm.table != [] && (forall i :: 0 <= i < |vm.table| ==> vm.table[i].refs == 0)
    && Roomy(vm.phys, a, n)
  }

  /** The first space of a machine with room. */
  lemma FirstSpace(w: World, a: nat, n: nat) returns (w': World, cr3: nat, after: Roles)
    requires Bootable(w.s.vm, w.s.kernel, a, n) && n > 0 && Safe(w, map[]) && w.held == {}
    ensures w' == Step(w, NewSpace) && Safe(w', after) && w' == w.(s := w.s.(vm := w'.s.vm), held := {cr3})
    ensures IsRoot(after, cr3) && cr3 != 0 && Refs(w'.s.vm.table, cr3) == 1 && PageMap(w'.s.vm.phys.mem, cr3) == map[]
    ensures Roomy(w'.s.vm.phys, a + 1, n - 1)
  {
    var vm, kernel := w.s.vm, w.s.kernel;
    w' := Step(w, NewSpace);
    after := NewSpaceSafe(w, map[]);
    after := CreateSpaceStep(vm, map[], kernel);
    cr3 := CreateSpace(vm, kernel).1;
    var b, m := FrameTail(vm.phys, ZeroTable(), a, n);
    var f := CreateRoot(vm.phys, kernel).1;
    assert Refs(vm.table, f) == 0 by { assert !IsRoot(map[], f); }
    assert vm.table[0].refs == 0;
    RegisterLaw(vm.table, f, f);
    after := NewSpaceSafe(w, map[]);
    HeldExists(w', after, cr3);
  }

  // ---------------------------------------------------------------------------------------
  // A stack that stops half-way
  // ---------------------------------------------------------------------------------------

  lemma {:induction false} MissingAtMost(mem: seq<Frame>, root: nat, p: Path)
    ensures Missing(mem, root, p) <= Len(p)
  {
    if p.Sub? { MissingAtMost(mem, root, p.up); }
  }

  /** In a fresh space, a page mapped where the second page of the stack is to be. */
  lemma InTheWay(s: Phys, roles: Roles, root: nat, a: nat, n: nat, flags: Flags, t: Phys)
    requires Inv(s, roles) && IsRoot(roles, root) && PageMap(s.mem, root) == map[] && Roomy(s, a, n) && n >= 8
    requires t == MapFresh(s, root, PathOf(STACK_PAGE + 1), flags).0
    ensures StackStarts(t, root) && STACK_PAGE + 1 in PageMap(t.mem, root) && !Clean(t, root)
  {
    var v := STACK_PAGE + 1;
    var p, ok := PathOf(v), MapFresh(s, root, PathOf(v), flags).1;
    PathOfPage(v);
    StackPlace();
    assert InRun(v, STACK_PAGE, USTACK_PAGES) && p.up == PathOf(STACK_PAGE).up;
    MissingAtMost(s.mem, root, p.up);
    RoomyCount(s.used, a, n);
    MapFreshExact(s, roles, root, v, p, flags, t, ok);
    MapFreshLaw(s, roles, root, v, flags, root);
    MapTail(s, root, v, flags, a, n);
    AllocTail(t.used, a + 4, USTACK_PAGES);
    RoomyCount(t.used, a + 4, USTACK_PAGES);
    assert OnWay(p.up, p.up);
  }

  /** From boot: a space is made, a page of it is mapped where its stack will be, and a thread is created
      in it. The creation fails with a page of the space mapped to a frame that is free. */
  lemma CreationFails(vm: Vm, kernel: nat, a: nat, n: nat, flags: Flags) returns (ops: seq<Op>, cr3: nat)
    requires Bootable(vm, kernel, a, n) && n >= 9
    ensures Allowed(Boot(vm, kernel), ops)
    ensures var w := Run(Boot(vm, kernel), ops);
            && On(w.s, 0) && cr3 in w.held && StackStops(w.s, true, cr3, true)
            && forall after :: !Safe(AfterCreate(w, 0, 1, true, cr3, true), after)
  {
    var w0 := Boot(vm, kernel);
    BootSafe(vm, kernel);
    var w1, roles;
    w1, cr3, roles := FirstSpace(w0, a, n);
    RunSnoc(w0, [], NewSpace);
    assert [] + [NewSpace] == [NewSpace];
    var touch := Touch(cr3, MapOp(STACK_PAGE + 1, flags));
    RunSnoc(w0, [NewSpace], touch);
    ops := [NewSpace] + [touch];
    var w2 := Step(w1, touch);
    var roles' := TouchSafe(w1, roles, cr3, touch.op);
    InTheWay(w1.s.vm.phys, roles, cr3, a + 1, n - 1, flags, w2.s.vm.phys);
    CreateExact(w2, roles', 0, 1, true, cr3, true);
  }

  // ---------------------------------------------------------------------------------------
  // A kill across processors
  // ---------------------------------------------------------------------------------------

  /** Two processors run their bootstrap threads; the other threads are ready, shared out in turn, and
      the fourth of all is a user thread. */
  ghost predicate Seats(s: Sched, k: nat) {
    && Shaped(s) && k < MAX_THREADS && s.current[0] == Some(0) && s.current[1] == Some(1) && s.nextId == k && s.rr == k % 2
    && (forall j :: 0 <= j < k ==> SeatOf(s.threads[j], j))
    && (forall j :: k <= j < MAX_THREADS ==> s.threads[j].status == Unused)
  }

  predicate SeatOf(t: Thread, j: nat) {
    t.id == j && t.status == (if j < 2 then Running else Ready) && t.cpu == j % 2 && t.user == (j == 3)
  }

  lemma RegisterSeats(vm: Vm, kernel: nat, w: World)
    requires w == Step(Boot(vm, kernel), Registered(1))
    ensures Seats(w.s, 2) && w.held == {} && w.s.vm == vm && w.s.kernel == kernel && |w.boot| == MAX_CPUS
  {
    assert FindUnused(Boot(vm, kernel).s.threads) == 1;
  }

  lemma FirstUnused(s: Sched, k: nat)
    requires Seats(s, k)
    ensures FindUnused(s.threads) == k
  {
    var i := FindUnused(s.threads);
    assert i < k ==> SeatOf(s.threads[i], i);
    assert s.threads[k].status == Unused;
  }

  lemma EnrollSeats(s: Sched, k: nat, user: bool, cr3: nat, phys: Phys, s': Sched)
    requires Seats(s, k) && k in {2, 3} && user == (k == 3) && s' == Enroll(s, 0, k, 2, user, cr3, phys, true)
    ensures Seats(s', k + 1) && s'.vm == Vm(phys, s.vm.table) && s'.kernel == s.kernel
  {
    assert SeatOf(s.threads[0], 0);
    forall j | 0 <= j < k + 1 ensures SeatOf(s'.threads[j], j) { assert j < k ==> SeatOf(s.threads[j], j); }
    forall i | 0 <= i < MAX_THREADS && s'.threads[i].parent.Some? ensures s'.threads[i].parent.value < MAX_THREADS {}
  }

  lemma CreateSeats(w: World, k: nat, user: bool, cr3: nat, t: Phys, w': World)
    requires Seats(w.s, k) && k in {2, 3} && user == (k == 3) && (t, true) == Stacks(w.s.vm.phys, user, cr3, true)
    requires w' == AfterCreate(w, 0, 2, user, cr3, true)
    ensures Seats(w'.s, k + 1) && w'.s.vm == Vm(t, w.s.vm.table) && w'.s.kernel == w.s.kernel && w'.boot == w.boot
    ensures w'.held == if user then w.held - {cr3} else w.held
  {
    FirstUnused(w.s, k);
    EnrollSeats(w.s, k, user, cr3, t, w'.s);
  }

  lemma TickSeats(w: World, roles: Roles, s: Sched)
    requires Safe(w, roles) && Seats(w.s, 4) && s == Tick(w.s, 1, 0)
    ensures s.current[0] == Some(0) && s.current[1] == Some(3) && On(s, 0) && FindId(s.threads, 3) == 3
    ensures s.threads[3].user && s.threads[3].status == Running
  {
    var ts := Wake(w.s.threads, 0);
    EveryPick(w, roles, 1, 0);
    assert SeatOf(ts[3], 3) && SeatOf(ts[1], 1) && SeatOf(ts[0], 0) && SeatOf(ts[2], 2);
    assert Candidate(ts[3], 1);
    var n := PickNext(ts, w.s.current[1], 1);
    assert n < 4;
    var k := FindId(s.threads, 3);
    assert s.threads[3].id == 3 && Pid(s.threads[3]) == 3;
    assert forall j :: 0 <= j < 3 ==> s.threads[j].id == j;
  }

  /** In a fresh space with room the stack fits. */
  lemma FreshFits(s: Phys, roles: Roles, root: nat, a: nat, n: nat)
    requires Inv(s, roles) && IsRoot(roles, root) && PageMap(s.mem, root) == map[] && Roomy(s, a, n) && n >= 7
    ensures StackFits(s, root) && GiveStack(s, root).1
  {
    PathOfPage(STACK_PAGE);
    MissingAtMost(s.mem, root, PathOf(STACK_PAGE).up);
    RoomyCount(s.used, a, n);
    AllocTail(s.used, a, USTACK_PAGES);
    var r := GiveStack(s, root);
    var ds, after := GiveStackLaw(s, roles, root, r.0, r.1);
  }

  /** The run up to the tick: a second processor, a space, a kernel thread and a user thread. */
  lemma FourThreads(vm: Vm, kernel: nat, a: nat, n: nat) returns (ops: seq<Op>, w: World, roles: Roles)
    requires Bootable(vm, kernel, a, n) && n >= 8
    ensures Allowed(Boot(vm, kernel), ops) && w == Run(Boot(vm, kernel), ops) && Safe(w, roles) && Seats(w.s, 4)
  {
    var w0 := Boot(vm, kernel);
    BootSafe(vm, kernel);
    RunSnoc(w0, [], Registered(1));
    var w1 := Step(w0, Registered(1));
    RegisterSeats(vm, kernel, w1);
    roles := StepSafe(w0, map[], Registered(1));
    assert [] + [Registered(1)] == [Registered(1)];
    ops, w, roles := FourMore(w0, [Registered(1)], w1, a, n);
  }

  lemma FourMore(w0: World, before: seq<Op>, w1: World, a: nat, n: nat) returns (ops: seq<Op>, w: World, roles: Roles)
    requires Allowed(w0, before) && w1 == Run(w0, before) && Safe(w1, map[])
    requires Seats(w1.s, 2) && w1.held == {} && w1.s.kernel != 0
    requires Bootable(w1.s.vm, w1.s.kernel, a, n) && n >= 8
    ensures Allowed(w0, ops) && w == Run(w0, ops) && Safe(w, roles) && Seats(w.s, 4)
  {
    var cr3, w2;
    w2, cr3, roles := FirstSpace(w1, a, n);
    RunSnoc(w0, before, NewSpace);
    FreshFits(w2.s.vm.phys, roles, cr3, a + 1, n - 1);
    ops, w, roles := LastTwo(w0, before + [NewSpace], w2, roles, cr3);
  }

  lemma LastTwo(w0: World, before: seq<Op>, w2: World, roles: Roles, cr3: nat) returns (ops: seq<Op>, w: World, after: Roles)
    requires Allowed(w0, before) && w2 == Run(w0, before) && Safe(w2, roles)
    requires Seats(w2.s, 2) && w2.held == {cr3} && w2.s.kernel != 0
    requires cr3 != 0 && StackFits(w2.s.vm.phys, cr3) && GiveStack(w2.s.vm.phys, cr3).1
    ensures Allowed(w0, ops) && w == Run(w0, ops) && Safe(w, after) && Seats(w.s, 4)
  {
    var kernel, s := w2.s.kernel, w2.s.vm.phys;
    var op3, op4 := Created(0, 2, false, kernel, true), Created(0, 2, true, cr3, true);
    RunSnoc(w0, before, op3);
    var w3 := Step(w2, op3);
    after := StepSafe(w2, roles, op3);
    CreateSeats(w2, 2, false, kernel, s, w3);
    RunSnoc(w0, before + [op3], op4);
    w := Step(w3, op4);
    after := StepSafe(w3, after, op4);
    CreateSeats(w3, 3, true, cr3, GiveStack(s, cr3).0, w);
    ops := before + [op3] + [op4];
  }

  /** From boot: a user thread comes to run on the second processor, and the first one kills it. The
      second processor is then left with a zombie as its current thread. */
  lemma KillFails(vm: Vm, kernel: nat, a: nat, n: nat, sig: int) returns (ops: seq<Op>)
    requires Bootable(vm, kernel, a, n) && n >= 8
    ensures Allowed(Boot(vm, kernel), ops)
    ensures var w := Run(Boot(vm, kernel), ops);
            && On(w.s, 0) && KillsRunning(w.s, 0, 3) && w.s.current[1] == Some(3)
            && !Orderly(w.(s := Kill(w.s, 0, 3, sig).0)) && Kill(w.s, 0, 3, sig).0.threads[3].status == Zombie
  {
    var w, roles;
    ops, w, roles := FourThreads(vm, kernel, a, n);
    var w0 := Boot(vm, kernel);
    assert On(w.s, 1);
    RunSnoc(w0, ops, Ticked(1, 0));
    ops := ops + [Ticked(1, 0)];
    TickSeats(w, roles, Tick(w.s, 1, 0));
    TickOrderly(w, 1, 0);
    KilledThere(Step(w, Ticked(1, 0)), sig);
  }

  lemma KilledThere(w: World, sig: int)
    requires Orderly(w) && On(w.s, 0) && w.s.current[0] == Some(0) && w.s.current[1] == Some(3) && FindId(w.s.threads, 3) == 3
    requires w.s.threads[3].user && w.s.threads[3].status == Running
    ensures KillsRunning(w.s, 0, 3) && !Orderly(w.(s := Kill(w.s, 0, 3, sig).0))
    ensures Kill(w.s, 0, 3, sig).0.threads[3].status == Zombie
  {
    KillExact(w, 0, 3, sig);
    KillWakes(w, 0, 3, sig, 3, 0);
  }

  // ---------------------------------------------------------------------------------------
  // There are such machines
  // ---------------------------------------------------------------------------------------

  /** Sixteen frames, the first two in use, and no space yet. */
  function SmallMachine(): Vm {
    Vm(Phys(seq(16, f => f < 2), seq(16, _ => ZeroPage())), [Space(0, 0)])
  }

  lemma SmallBoots()
    ensures Bootable(SmallMachine(), 1, 2, 14)
  {
    var vm := SmallMachine();
    assert forall r: nat :: !IsRoot(map[], r);
    forall r: nat ensures Refs(vm.table, r) == 0 {}
  }
}

/** User code reaches every page of every space: over whole lives of a space and whole runs of the system. */
module SystemReach {
  import opened Paging
  import opened PageTree
  import opened Spaces
  import opened SpaceTable
  import opened SpaceLife
  import opened StackOps
  import opened Threads
  import opened ThreadLaws
  import opened ThreadRuns
  import opened UserReach
  import opened RunReach

  /** A page that is mapped is mapped for user code. */
  predicate ForUser(op: PageOp) {
    op.MapOp? ==> op.flags.user
  }

  lemma ApplyOpen(s: Phys, roles: Roles, root: nat, op: PageOp)
    requires Inv(s, roles) && IsRoot(roles, root) && UserPage(op.v) && ForUser(op) && AllOpen(s.mem, root)
    ensures AllOpen(Apply(s, root, op).mem, root)
  {
    match op
    case MapOp(v, flags) => MapFreshOpen(s, roles, root, v, flags);
    case UnmapOp(v) => UnmapFreeOpen(s, roles, root, v);
  }

  /** As long as a space has references, whatever is mapped and unmapped in it for user code and however it is
      shared, user code reaches its pages. */
  lemma {:induction false} LifeOpen(vm: Vm, roles: Roles, root: nat, kernel: nat, ops: seq<LifeOp>)
    requires VmInv(vm, roles, kernel) && Proper(vm, root, kernel, ops) && Refs(vm.table, root) > 0 && AllOpen(vm.phys.mem, root)
    requires forall i :: 0 <= i < |ops| && ops[i].Page? ==> ForUser(ops[i].op)
    ensures var w := Life(vm, root, kernel, ops);
            Refs(w.table, root) > 0 ==> AllOpen(w.phys.mem, root) && AllReached(w.phys.mem, root)
    decreases |ops|
  {
    assert IsRoot(roles, root);
    if ops == [] {
      AllReachable(vm.phys.mem, root);
    } else {
      var w := LifeStep(vm, root, kernel, ops[0]);
      var r := roles;
      match ops[0] {
        case Page(p) =>
          r := PageStep(vm, roles, kernel, root, p);
          ApplyOpen(vm.phys, roles, root, p);
        case Get => RetainSpaceStep(vm, roles, kernel, root);
        case Put =>
          ReleaseSpaceStep(vm, roles, kernel, root);
          r := if Refs(vm.table, root) == 1 then Without(roles, root) else roles;
      }
      if Refs(w.table, root) > 0 {
        LifeOpen(w, r, root, kernel, ops[1..]);
      } else {
        Ended(w, root, kernel, ops[1..]);
      }
    }
  }

  /** A space without references is not used any more. */
  lemma Ended(vm: Vm, root: nat, kernel: nat, ops: seq<LifeOp>)
    requires Proper(vm, root, kernel, ops) && Refs(vm.table, root) == 0
    ensures Life(vm, root, kernel, ops) == vm
  {
  }

  // ---------------------------------------------------------------------------------------
  // The whole system
  // ---------------------------------------------------------------------------------------

  /** Every space with references is open to user code. */
  ghost predicate OpenWorld(w: World) {
    forall r: nat {:trigger Refs(w.s.vm.table, r)} :: Refs(w.s.vm.table, r) > 0 ==> AllOpen(w.s.vm.phys.mem, r)
  }

  predicate StepForUser(op: Op) {
    op.Touch? ==> ForUser(op.op)
  }

  lemma StoredOpen(s: Phys, roles: Roles, root: nat, v: nat, bytes: Bytes, t: Phys)
    requires Inv(s, roles) && IsRoot(roles, root) && UserPage(v) && t == Store(s, root, v, bytes) && AllOpen(s.mem, root)
    ensures AllOpen(t.mem, root)
  {
    StoreLaw(s, roles, root, v, bytes, t);
    PathOfPage(v);
    var e := Lookup(s.mem, root, PathOf(v));
    if e.Some? {
      LookupIsPlacement(s.mem, roles, root, PathOf(v), e.value.frame);
      DataInner(s.mem, roles, t.mem, root);
      SameOpen(s.mem, t.mem, root);
    }
  }

  /** The space that a step works in stays open. */
  lemma WorksOpen(w: World, roles: Roles, op: Op, d: nat)
    requires Safe(w, roles) && w.s.kernel != 0 && Enabled(w, op) && StepForUser(op) && Works(op, d)
    requires IsRoot(roles, d) && AllOpen(w.s.vm.phys.mem, d) && Refs(Step(w, op).s.vm.table, d) > 0
    ensures AllOpen(Step(w, op).s.vm.phys.mem, d)
  {
    var s := w.s.vm.phys;
    match op {
      case Touch(cr3, p) => ApplyOpen(s, roles, cr3, p);
      case Stored(cr3, v, bytes) => StoredOpen(s, roles, cr3, v, bytes, Store(s, cr3, v, bytes));
      case ExecStack(cr3) =>
        var (t, ok) := GiveStack(s, cr3);
        GiveStackOpen(s, roles, cr3, t, ok);
        if !ok { ReleaseLaw(w.s.vm.table, cr3, w.s.kernel, cr3); }
      case Created(_, _, user, cr3, kstackOk) =>
        if cr3 != 0 && kstackOk {
          var (t, ok) := GiveStack(s, cr3);
          GiveStackOpen(s, roles, cr3, t, ok);
        }
    }
  }

  /** A space that a step other than its creation touches and that has references afterwards had some
      before. */
  lemma TouchedIsRoot(w: World, roles: Roles, op: Op, d: nat)
    requires Safe(w, roles) && w.s.kernel != 0 && Enabled(w, op) && !op.NewSpace? && d == Touched(w, op) && d != 0
    requires Refs(Step(w, op).s.vm.table, d) > 0
    ensures IsRoot(roles, d)
  {
    match op {
      case WaitedFor(cpu, pid) => ReapedIsRoot(w, roles, cpu, pid, d);
      case Execed(cpu, _) =>
        assert CpuOk(w.s, w.boot, cpu);
        HeldIsRoot(w.s.threads, Cur(w.s, cpu), w.held, w.s.vm, roles, w.s.kernel);
      case DropSpace(cr3) => HeldExists(w, roles, cr3);
      case Created(_, _, _, cr3, _) => HeldExists(w, roles, cr3);
      case Touch(cr3, _) =>
      case Stored(cr3, _, _) =>
      case ExecStack(cr3) => HeldExists(w, roles, cr3);
    }
  }

  lemma ReapedIsRoot(w: World, roles: Roles, cpu: nat, pid: int, d: nat)
    requires Safe(w, roles) && On(w.s, cpu) && Enabled(w, WaitedFor(cpu, pid)) && d == Touched(w, WaitedFor(cpu, pid)) && d != 0
    requires Refs(WaitPid(w.s, cpu, pid).0.vm.table, d) > 0
    ensures IsRoot(roles, d)
  {
    var z := FindChild(w.s.threads, Cur(w.s, cpu), pid, true);
    assert ThreadOk(w.s, z);
    if w.s.threads[z].user { HeldIsRoot(w.s.threads, z, w.held, w.s.vm, roles, w.s.kernel); }
  }

  lemma NewOpen(w: World, roles: Roles)
    requires Safe(w, roles) && Touched(w, NewSpace) != 0
    ensures AllOpen(Step(w, NewSpace).s.vm.phys.mem, Touched(w, NewSpace))
  {
    NewRootOpen(w.s.vm.phys, roles, w.s.kernel);
  }

  lemma TouchedOpen(w: World, roles: Roles, op: Op, d: nat)
    requires Safe(w, roles) && w.s.kernel != 0 && Enabled(w, op) && StepForUser(op) && OpenWorld(w)
    requires d == Touched(w, op) && d != 0 && Refs(Step(w, op).s.vm.table, d) > 0
    ensures AllOpen(Step(w, op).s.vm.phys.mem, d)
  {
    if op.NewSpace? {
      NewOpen(w, roles);
    } else {
      TouchedIsRoot(w, roles, op, d);
      assert Refs(w.s.vm.table, d) > 0;
      if Works(op, d) { WorksOpen(w, roles, op, d); } else { SurvivorKept(w, roles, op); }
    }
  }

  /** Every step that maps for user code only leaves every space open. */
  lemma StepOpen(w: World, roles: Roles, op: Op) returns (after: Roles)
    requires Safe(w, roles) && w.s.kernel != 0 && Enabled(w, op) && StepForUser(op) && OpenWorld(w)
    ensures Safe(Step(w, op), after) && Step(w, op).s.kernel == w.s.kernel && OpenWorld(Step(w, op))
  {
    after := StepSafe(w, roles, op);
    var s, t, d := w.s.vm.phys, Step(w, op).s.vm.phys, Touched(w, op);
    forall r: nat | Refs(Step(w, op).s.vm.table, r) > 0 ensures AllOpen(t.mem, r) {
      assert IsRoot(after, r) && FrameOk(t.mem, after, r);
      if r == d {
        TouchedOpen(w, roles, op, d);
      } else {
        assert IsRoot(roles, r);
        assert Refs(w.s.vm.table, r) > 0;
        OtherInner(s, roles, t, after, d, r);
        SameOpen(s.mem, t.mem, r);
      }
    }
  }

  lemma {:induction false} RunOpen(w: World, roles: Roles, ops: seq<Op>) returns (after: Roles)
    requires Safe(w, roles) && w.s.kernel != 0 && ThreadRuns.Allowed(w, ops) && OpenWorld(w)
    requires forall i :: 0 <= i < |ops| ==> StepForUser(ops[i])
    ensures Safe(Run(w, ops), after) && OpenWorld(Run(w, ops))
    decreases |ops|
  {
    after := roles;
    if ops != [] {
      after := StepOpen(w, roles, ops[0]);
      after := RunOpen(Step(w, ops[0]), after, ops[1..]);
    }
  }

  /** Over every run from boot, on all processors, in which pages are mapped for user code: user code reaches
      every page of every space. */
  lemma EveryRunReach(vm: Vm, kernel: nat, ops: seq<Op>, r: nat)
    requires VmInv(vm, map[], kernel) && kernel != 0 && forall i :: 0 <= i < |vm.table| ==> vm.table[i].refs == 0
    requires ThreadRuns.Allowed(Boot(vm, kernel), ops) && forall i :: 0 <= i < |ops| ==> StepForUser(ops[i])
    requires Refs(Run(Boot(vm, kernel), ops).s.vm.table, r) > 0
    ensures AllReached(Run(Boot(vm, kernel), ops).s.vm.phys.mem, r)
  {
    BootSafe(vm, kernel);
    var after := RunOpen(Boot(vm, kernel), map[], ops);
    AllReachable(Run(Boot(vm, kernel), ops).s.vm.phys.mem, r);
  }
}

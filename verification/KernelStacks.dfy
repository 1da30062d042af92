/** The kernel stacks of the threads: with them, every frame of the machine is accounted for in every run
    of the scheduler. */
module KernelStacks {
  import opened Basics
  import opened Paging
  import opened PageTree
  import opened Spaces
  import opened SpaceTable
  import opened SpaceLife
  import opened StackOps
  import opened Threads
  import opened ThreadLaws
  import opened ThreadRuns
  import Pmm

  /** The size of a kernel stack; a fork takes its parent's, which is a user thread's and so the same. */
  const KSTACK_PAGES: nat := 4

  /** The scheduler's world, the first frame of the kernel stack of each slot that has one, and the frames
      of kernel stacks that no slot knows any more. Bootstrap threads run on stacks of the kernel's image. */
  datatype System = System(w: World, stacks: map<nat, nat>, lost: set<nat>)

  /** A step of the scheduler; or the kernel, running on the stack of a slot, writes one of its frames. */
  datatype Deed = Stepped(op: Op) | Pushed(slot: nat, i: nat, content: Frame)

  /** `pmm_alloc_pages(KSTACK_PAGES)` */
  function TakeStack(s: Phys): (Phys, nat) {
    var (u, k) := Pmm.Alloc(s.used, KSTACK_PAGES);
    (Phys(u, s.mem), k)
  }

  function WithPhys(w: World, t: Phys): World {
    w.(s := w.s.(vm := Vm(t, w.s.vm.table)))
  }

  /** The step comes as far as asking for a kernel stack. */
  predicate Asks(s: Sched, op: Op) {
    match op
    case Forked(cpu, filesOk, _) => On(s, cpu) && s.threads[Cur(s, cpu)].user && FindUnused(s.threads) < MAX_THREADS && filesOk
    case Created(cpu, _, _, cr3, _) => On(s, cpu) && FindUnused(s.threads) < MAX_THREADS && cr3 != 0
    case _ => false
  }

  /** The slot that the step empties; MAX_THREADS for none. */
  function ReapedSlot(s: Sched, op: Op): nat {
    match op
    case WaitedFor(cpu, pid) => if On(s, cpu) then FindChild(s.threads, Cur(s, cpu), pid, true) else MAX_THREADS
    case _ => MAX_THREADS
  }

  /** The step, told whether there was a kernel stack. */
  function Answered(op: Op, ok: bool): Op {
    match op
    case Forked(cpu, filesOk, _) => Forked(cpu, filesOk, ok)
    case Created(cpu, online, user, cr3, _) => Created(cpu, online, user, cr3, ok)
    case _ => op
  }

  /** The memory that the step finds: a kernel stack taken, or that of the reaped thread given back. */
  function Found(x: System, op: Op): Phys {
    var s, z := x.w.s.vm.phys, ReapedSlot(x.w.s, op);
    if Asks(x.w.s, op) then TakeStack(s).0
    else if z in x.stacks then FreeFrames(s, x.stacks[z], KSTACK_PAGES)
    else s
  }

  function Got(x: System, op: Op): nat {
    if Asks(x.w.s, op) then TakeStack(x.w.s.vm.phys).1 else 0
  }

  function Frames(k: nat): (r: set<nat>)
    ensures forall f :: f in r <==> k <= f < k + KSTACK_PAGES
  {
    {k, k + 1, k + 2, k + 3}
  }

  /** Who has the kernel stack after the step, which left `w`. */
  function Filed(x: System, op: Op, w: World): System {
    var k, slot := Got(x, op), FindUnused(x.w.s.threads);
    if k == 0 then System(w, x.stacks - {ReapedSlot(x.w.s, op)}, x.lost)
    else if slot < |w.s.threads| && w.s.threads[slot].status != Unused then System(w, x.stacks[slot := k], x.lost)
    else System(w, x.stacks, x.lost + Frames(k))
  }

  ghost predicate Possible(x: System, d: Deed) {
    && Shaped(x.w.s) && |x.w.boot| == MAX_CPUS
    && match d
       case Stepped(op) => Enabled(WithPhys(x.w, Found(x, op)), Answered(op, Got(x, op) != 0))
       case Pushed(slot, i, _) => slot in x.stacks && i < KSTACK_PAGES && x.stacks[slot] + i < |x.w.s.vm.phys.mem|
  }

  /** The scheduler's part of a deed. */
  function Scheduled(x: System, op: Op): World
    requires Possible(x, Stepped(op))
  {
    Step(WithPhys(x.w, Found(x, op)), Answered(op, Got(x, op) != 0))
  }

  function Do(x: System, d: Deed): System
    requires Possible(x, d)
  {
    match d
    case Stepped(op) => Filed(x, op, Scheduled(x, op))
    case Pushed(slot, i, content) =>
      var s := x.w.s.vm.phys;
      x.(w := WithPhys(x.w, Phys(s.used, s.mem[x.stacks[slot] + i := content])))
  }

  // ---------------------------------------------------------------------------------------
  // The account
  // ---------------------------------------------------------------------------------------

  predicate Owns(stacks: map<nat, nat>, z: nat, f: nat) {
    z in stacks && stacks[z] <= f < stacks[z] + KSTACK_PAGES
  }

  /** The frame is the kernel's: it was in use at boot, is lost, or is in a thread's kernel stack. */
  ghost predicate Kernels(base: set<nat>, stacks: map<nat, nat>, lost: set<nat>, f: nat) {
    f in base || f in lost || exists z :: Owns(stacks, z, f)
  }

  /** The frames in use are those of the kernel and those with a place in a space, and every one of them is
      in use once. */
  ghost predicate Account(s: Phys, roles: Roles, base: set<nat>, stacks: map<nat, nat>, lost: set<nat>) {
    && (forall f: nat {:trigger Kernels(base, stacks, lost, f)} :: f < |s.used| ==>
          (s.used[f] <==> Kernels(base, stacks, lost, f) || f in roles))
    && (forall f: nat {:trigger Kernels(base, stacks, lost, f)} :: Kernels(base, stacks, lost, f) ==> f < |s.used| && f !in roles)
    && base !! lost
    && (forall z, f {:trigger Owns(stacks, z, f)} :: Owns(stacks, z, f) ==> f !in base && f !in lost)
    && (forall y, z, f {:trigger Owns(stacks, y, f), Owns(stacks, z, f)} :: Owns(stacks, y, f) && Owns(stacks, z, f) ==> y == z)
  }

  predicate IsBoot(boot: seq<Option<nat>>, i: nat) {
    Some(i) in boot
  }

  /** The threads that are no bootstrap threads have a kernel stack, and nobody else. */
  ghost predicate HaveStacks(w: World, stacks: map<nat, nat>)
    requires Shaped(w.s)
  {
    && (forall i :: i in stacks ==> i < MAX_THREADS)
    && (forall i: nat :: i < MAX_THREADS ==> (i in stacks <==> w.s.threads[i].status != Unused && !IsBoot(w.boot, i)))
  }

  ghost predicate Accounted(x: System, roles: Roles, base: set<nat>) {
    && Safe(x.w, roles) && x.w.s.kernel != 0 && x.w.s.kernel in base && 0 in base
    && HaveStacks(x.w, x.stacks) && Account(x.w.s.vm.phys, roles, base, x.stacks, x.lost)
  }

  /** A change within one space leaves the kernel's frames alone. */
  lemma SpaceAccount(s: Phys, roles: Roles, t: Phys, after: Roles, root: nat, base: set<nat>, stacks: map<nat, nat>,
                     lost: set<nat>)
    requires Account(s, roles, base, stacks, lost) && OnlySpace(s, roles, t, after, root) && Held(t.used, after)
    ensures Account(t, after, base, stacks, lost)
  {
    forall f: nat | Kernels(base, stacks, lost, f) ensures f < |t.used| && t.used[f] && f !in after {
      assert ElsewhereUsed(s, roles, root, f);
      assert ElsewhereUsed(t, after, root, f);
    }
    forall f: nat | f < |t.used| && t.used[f] && f !in after ensures Kernels(base, stacks, lost, f) {
      assert ElsewhereUsed(t, after, root, f);
      assert ElsewhereUsed(s, roles, root, f);
    }
  }

  /** A stack just taken is nobody's yet. */
  lemma TakeAccount(s: Phys, roles: Roles, base: set<nat>, stacks: map<nat, nat>, lost: set<nat>, t: Phys, k: nat)
    requires Account(s, roles, base, stacks, lost) && Sound(s) && (t, k) == TakeStack(s)
    ensures t.mem == s.mem && |t.used| == |s.used| && forall f :: 0 <= f < |s.used| && s.used[f] ==> t.used[f]
    ensures k == 0 ==> t == s
    ensures k != 0 ==> lost !! Frames(k) && Account(t, roles, base, stacks, lost + Frames(k))
  {
    Pmm.AllocFirstFit(s.used, KSTACK_PAGES);
    if k != 0 {
      assert Pmm.FreeRun(s.used, k, KSTACK_PAGES);
      forall f: nat ensures Kernels(base, stacks, lost + Frames(k), f) <==> Kernels(base, stacks, lost, f) || f in Frames(k) {}
      forall f | f in Frames(k) ensures !Kernels(base, stacks, lost, f) && f !in roles { assert !s.used[f]; }
    }
  }

  /** The stack goes to a slot without one. */
  lemma FileAccount(t: Phys, roles: Roles, base: set<nat>, stacks: map<nat, nat>, lost: set<nat>, slot: nat, k: nat)
    requires Account(t, roles, base, stacks, lost + Frames(k)) && lost !! Frames(k) && slot !in stacks
    ensures Account(t, roles, base, stacks[slot := k], lost)
  {
    var more := stacks[slot := k];
    forall z, f ensures Owns(more, z, f) <==> Owns(stacks, z, f) || (z == slot && f in Frames(k)) {}
    forall f: nat ensures Kernels(base, more, lost, f) <==> Kernels(base, stacks, lost + Frames(k), f) {
      if z :| Owns(stacks, z, f) { assert Owns(more, z, f); }
      if z :| Owns(more, z, f) { assert Owns(stacks, z, f) || f in Frames(k); }
      if f in Frames(k) { assert Owns(more, slot, f); }
    }
    forall z, f | Owns(more, z, f) ensures f !in base && f !in lost { assert f in Frames(k) ==> f in lost + Frames(k); }
    forall y, z, f | Owns(more, y, f) && Owns(more, z, f) ensures y == z {
      assert f in Frames(k) ==> f in lost + Frames(k);
    }
    assert Account(t, roles, base, more, lost);
  }

  /** The stack of a slot is given back. */
  lemma GiveAccount(s: Phys, roles: Roles, base: set<nat>, stacks: map<nat, nat>, lost: set<nat>, z: nat, t: Phys)
    requires Account(s, roles, base, stacks, lost) && z in stacks && 0 in base && t == FreeFrames(s, stacks[z], KSTACK_PAGES)
    ensures Account(t, roles, base, stacks - {z}, lost)
    ensures |t.used| == |s.used| && forall f :: 0 <= f < |s.used| && (f in base || f in roles) ==> t.used[f] == s.used[f]
  {
    assert Owns(stacks, z, stacks[z]);
    forall y, f ensures Owns(stacks - {z}, y, f) <==> Owns(stacks, y, f) && y != z {}
    forall f: nat ensures Kernels(base, stacks - {z}, lost, f) <==> Kernels(base, stacks, lost, f) && !Owns(stacks, z, f) {}
    forall f: nat | f < |s.used| ensures t.used[f] == (s.used[f] && !Owns(stacks, z, f)) {
      assert Owns(stacks, z, f) ==> Kernels(base, stacks, lost, f);
    }
    forall f: nat | Owns(stacks, z, f) ensures f !in base && f !in roles { assert Kernels(base, stacks, lost, f); }
  }

  // ---------------------------------------------------------------------------------------
  // Slots
  // ---------------------------------------------------------------------------------------

  /** The same slots are filled, slot `k` apart. */
  predicate SameSlots(ts: seq<Thread>, ts': seq<Thread>, k: nat) {
    |ts'| == |ts| && forall i :: 0 <= i < |ts| && i != k ==> (ts'[i].status == Unused <==> ts[i].status == Unused)
  }

  lemma TickSlots(w: World, cpu: nat, now: nat)
    requires Orderly(w) && On(w.s, cpu)
    ensures SameSlots(w.s.threads, Tick(w.s, cpu, now).threads, MAX_THREADS)
  {
    var s1 := w.s.(threads := Wake(w.s.threads, now));
    WakeSeated(w.s, w.boot, now);
    WakeQuiet(w.s.threads, now);
    PickIsSound(s1, w.boot, cpu);
    SwitchQuiet(s1, cpu, PickNext(s1.threads, s1.current[cpu], cpu));
  }

  lemma ZombieSlots(ts: seq<Thread>, i: nat, code: int)
    requires i < |ts| && ts[i].status != Unused
    ensures SameSlots(ts, MarkZombie(ts, i, code), |ts|)
  {
  }

  lemma ExitSlots(w: World, cpu: nat, code: int)
    requires Orderly(w) && On(w.s, cpu) && w.s.current[cpu] != w.boot[cpu]
    ensures SameSlots(w.s.threads, Exit(w.s, cpu, code).threads, MAX_THREADS)
  {
    var i := Cur(w.s, cpu);
    var n := ExitPick(w, cpu, code);
    ZombieSlots(w.s.threads, i, code);
    SwitchQuiet(w.s.(threads := MarkZombie(w.s.threads, i, code)), cpu, n);
  }

  lemma KillSlots(w: World, cpu: nat, pid: int, sig: int)
    requires Orderly(w) && On(w.s, cpu)
    ensures SameSlots(w.s.threads, Kill(w.s, cpu, pid, sig).0.threads, MAX_THREADS)
  {
    var k := FindId(w.s.threads, pid);
    if k < MAX_THREADS { ZombieSlots(w.s.threads, k, -sig); }
  }

  lemma SleepSlots(w: World, cpu: nat, until: nat)
    requires Orderly(w) && On(w.s, cpu)
    ensures SameSlots(w.s.threads, Sleep(w.s, cpu, until).threads, MAX_THREADS)
  {
    assert CpuOk(w.s, w.boot, cpu);
  }

  lemma ForkSlots(w: World, cpu: nat, filesOk: bool, stackOk: bool)
    requires Orderly(w) && On(w.s, cpu)
    ensures SameSlots(w.s.threads, Fork(w.s, cpu, filesOk, stackOk).0.threads, FindUnused(w.s.threads))
    ensures var k := FindUnused(w.s.threads);
            k < MAX_THREADS ==>
              (Fork(w.s, cpu, filesOk, stackOk).0.threads[k].status != Unused <==> w.s.threads[Cur(w.s, cpu)].user && filesOk && stackOk)
  {
    assert CpuOk(w.s, w.boot, cpu);
  }

  lemma CreateSlots(w: World, cpu: nat, online: nat, user: bool, cr3: nat, kstackOk: bool)
    requires Orderly(w) && On(w.s, cpu)
    ensures var s := Create(w.s, cpu, online, user, cr3, kstackOk).0;
            var k := FindUnused(w.s.threads);
            && SameSlots(w.s.threads, s.threads, k)
            && (k < MAX_THREADS ==> (s.threads[k].status != Unused <==> Stacks(w.s.vm.phys, user, cr3, kstackOk).1))
  {
    assert CpuOk(w.s, w.boot, cpu);
  }

  lemma WaitSlots(w: World, cpu: nat, pid: int)
    requires Orderly(w) && On(w.s, cpu)
    ensures var s := WaitPid(w.s, cpu, pid).0;
            var z := FindChild(w.s.threads, Cur(w.s, cpu), pid, true);
            SameSlots(w.s.threads, s.threads, z) && (z < MAX_THREADS ==> s.threads[z].status == Unused)
  {
    assert CpuOk(w.s, w.boot, cpu);
  }

  /** The steps that leave every slot filled that is filled, and no other. */
  lemma QuietSlots(w: World, op: Op)
    requires Orderly(w) && Enabled(w, op) && !op.Forked? && !op.Created? && !op.WaitedFor? && !op.Registered?
    ensures SameSlots(w.s.threads, Step(w, op).s.threads, MAX_THREADS) && Step(w, op).boot == w.boot
  {
    match op {
      case Ticked(cpu, now) => TickSlots(w, cpu, now);
      case Exited(cpu, code) => ExitSlots(w, cpu, code);
      case Killed(cpu, pid, sig) => KillSlots(w, cpu, pid, sig);
      case Slept(cpu, until) => SleepSlots(w, cpu, until);
      case _ =>
    }
  }

  // ---------------------------------------------------------------------------------------
  // Steps
  // ---------------------------------------------------------------------------------------

  /** Other memory under the same threads. */
  lemma PhysSafe(w: World, roles: Roles, t: Phys)
    requires Safe(w, roles) && Inv(t, roles) && w.s.kernel < |t.used| && t.used[w.s.kernel]
    ensures Safe(WithPhys(w, t), roles)
  {
    SeatedSame(w.s, WithPhys(w, t).s, w.boot);
  }

  /** The frames of the stack that the step was given, which it may or may not keep. */
  function InHand(k: nat): set<nat> {
    if k == 0 then {} else Frames(k)
  }

  /** Taking or giving back a kernel stack disturbs no space. */
  lemma FoundSafe(x: System, roles: Roles, base: set<nat>, op: Op, t: Phys, k: nat)
    requires Accounted(x, roles, base) && t == Found(x, op) && k == Got(x, op)
    ensures Safe(WithPhys(x.w, t), roles) && x.lost !! InHand(k)
    ensures Account(t, roles, base, x.stacks - {ReapedSlot(x.w.s, op)}, x.lost + InHand(k))
  {
    var s, z := x.w.s.vm.phys, ReapedSlot(x.w.s, op);
    if Asks(x.w.s, op) {
      TakeAccount(s, roles, base, x.stacks, x.lost, t, k);
      assert x.stacks - {z} == x.stacks;
      assert k == 0 ==> x.lost + InHand(k) == x.lost;
    } else {
      assert x.lost + InHand(k) == x.lost;
      if z in x.stacks {
        GiveAccount(s, roles, base, x.stacks, x.lost, z, t);
      } else {
        assert x.stacks - {z} == x.stacks;
      }
    }
    PhysSafe(x.w, roles, t);
  }

  /** A step that asks for a kernel stack fills the first free slot exactly if it gets one and, for a user
      thread, its user stack too. */
  lemma AskedSlots(w: World, op: Op)
    requires Orderly(w) && Enabled(w, op) && Asks(w.s, op)
    ensures SameSlots(w.s.threads, Step(w, op).s.threads, FindUnused(w.s.threads)) && Step(w, op).boot == w.boot
    ensures Step(w, op).s.threads[FindUnused(w.s.threads)].status != Unused <==>
            if op.Forked? then op.stackOk else Stacks(w.s.vm.phys, op.user, op.cr3, op.kstackOk).1
  {
    match op {
      case Forked(cpu, filesOk, stackOk) => ForkSlots(w, cpu, filesOk, stackOk);
      case Created(cpu, online, user, cr3, kstackOk) => CreateSlots(w, cpu, online, user, cr3, kstackOk);
    }
  }

  /** A step that does not ask for a kernel stack fills no slot but that of a bootstrap thread. */
  lemma UnaskedSlots(w: World, op: Op, z: nat)
    requires Orderly(w) && Enabled(w, op) && !Asks(w.s, op) && z == ReapedSlot(w.s, op) && !op.Registered?
    ensures SameSlots(w.s.threads, Step(w, op).s.threads, z) && Step(w, op).boot == w.boot
    ensures z < MAX_THREADS ==> Step(w, op).s.threads[z].status == Unused
  {
    match op {
      case Forked(cpu, filesOk, stackOk) => ForkSlots(w, cpu, filesOk, stackOk);
      case Created(cpu, online, user, cr3, kstackOk) => CreateSlots(w, cpu, online, user, cr3, kstackOk);
      case WaitedFor(cpu, pid) => WaitSlots(w, cpu, pid);
      case _ => QuietSlots(w, op);
    }
  }

  lemma RegisterSlots(w: World, cpu: nat, stacks: map<nat, nat>)
    requires Orderly(w) && Enabled(w, Registered(cpu)) && HaveStacks(w, stacks)
    ensures Shaped(Step(w, Registered(cpu)).s) && HaveStacks(Step(w, Registered(cpu)), stacks)
  {
    var w', k := Step(w, Registered(cpu)), FindUnused(w.s.threads);
    assert CpuOk(w.s, w.boot, cpu);
    assert w'.boot[cpu] == w'.s.current[cpu];
    forall i: nat | i < MAX_THREADS
      ensures IsBoot(w'.boot, i) <==> IsBoot(w.boot, i) || (k < MAX_THREADS && i == k)
    {
      if IsBoot(w.boot, i) {
        var c :| 0 <= c < |w.boot| && w.boot[c] == Some(i);
        assert w'.boot[c] == Some(i);
      }
      if k < MAX_THREADS && i == k { assert w'.boot[cpu] == Some(i); }
    }
  }

  /** Bootstrap threads never leave their slots. */
  lemma BootSlots(w: World, i: nat)
    requires Orderly(w) && i < MAX_THREADS && IsBoot(w.boot, i)
    ensures w.s.threads[i].status != Unused
  {
    var c :| 0 <= c < |w.boot| && w.boot[c] == Some(i);
    assert CpuOk(w.s, w.boot, c);
  }

  lemma KeepStacks(w: World, w2: World, stacks: map<nat, nat>, z: nat)
    requires Shaped(w.s) && HaveStacks(w, stacks) && Shaped(w2.s) && w2.boot == w.boot
    requires SameSlots(w.s.threads, w2.s.threads, z) && (z < MAX_THREADS ==> w2.s.threads[z].status == Unused)
    ensures HaveStacks(w2, stacks - {z})
  {
  }

  lemma FillStacks(w: World, w2: World, stacks: map<nat, nat>, slot: nat, k: nat)
    requires Orderly(w) && HaveStacks(w, stacks) && Shaped(w2.s) && w2.boot == w.boot
    requires slot < MAX_THREADS && w.s.threads[slot].status == Unused
    requires SameSlots(w.s.threads, w2.s.threads, slot)
    ensures HaveStacks(w2, if w2.s.threads[slot].status != Unused then stacks[slot := k] else stacks)
  {
    if IsBoot(w.boot, slot) { BootSlots(w, slot); }
  }

  lemma AskedStacks(x: System, op: Op, w1: World, op1: Op, w2: World)
    requires Orderly(w1) && HaveStacks(w1, x.stacks) && w1 == WithPhys(x.w, w1.s.vm.phys) && Enabled(w1, op1)
    requires op1 == Answered(op, Got(x, op) != 0) && w2 == Step(w1, op1) && Shaped(w2.s) && Asks(x.w.s, op)
    ensures HaveStacks(w2, Filed(x, op, w2).stacks)
  {
    AskedSlots(w1, op1);
    FillStacks(w1, w2, x.stacks, FindUnused(x.w.s.threads), Got(x, op));
    assert x.stacks - {MAX_THREADS} == x.stacks;
  }

  lemma UnaskedStacks(x: System, op: Op, w1: World, op1: Op, w2: World)
    requires Orderly(w1) && HaveStacks(w1, x.stacks) && w1 == WithPhys(x.w, w1.s.vm.phys) && Enabled(w1, op1)
    requires op1 == Answered(op, false) && w2 == Step(w1, op1) && Shaped(w2.s) && !Asks(x.w.s, op) && !op.Registered?
    ensures HaveStacks(w2, Filed(x, op, w2).stacks)
  {
    var z := ReapedSlot(x.w.s, op);
    UnaskedSlots(w1, op1, z);
    KeepStacks(w1, w2, x.stacks, z);
  }

  /** After the step, too, the threads that are no bootstrap threads have a kernel stack each. */
  lemma FiledStacks(x: System, op: Op, w1: World, op1: Op, w2: World)
    requires Orderly(w1) && HaveStacks(w1, x.stacks) && w1 == WithPhys(x.w, w1.s.vm.phys) && Enabled(w1, op1)
    requires op1 == Answered(op, Got(x, op) != 0) && w2 == Step(w1, op1) && Shaped(w2.s)
    ensures HaveStacks(w2, Filed(x, op, w2).stacks)
  {
    if op.Registered? {
      RegisterSlots(w1, op.cpu, x.stacks);
      assert x.stacks - {MAX_THREADS} == x.stacks;
    } else if Asks(x.w.s, op) {
      AskedStacks(x, op, w1, op1, w2);
    } else {
      UnaskedStacks(x, op, w1, op1, w2);
    }
  }

  /** Every step of the scheduler keeps the account. */
  lemma StepAccounted(x: System, roles: Roles, base: set<nat>, op: Op) returns (after: Roles)
    requires Accounted(x, roles, base) && Possible(x, Stepped(op))
    ensures Accounted(Do(x, Stepped(op)), after, base)
  {
    var t, k, z := Found(x, op), Got(x, op), ReapedSlot(x.w.s, op);
    var w1, op1 := WithPhys(x.w, t), Answered(op, k != 0);
    FoundSafe(x, roles, base, op, t, k);
    after := StepSafe(w1, roles, op1);
    var w2 := Step(w1, op1);
    SpaceAccount(t, roles, w2.s.vm.phys, after, Touched(w1, op1), base, x.stacks - {z}, x.lost + InHand(k));
    FiledStacks(x, op, w1, op1, w2);
    FiledAccount(x, roles, after, base, op, w2);
  }

  lemma FiledAccount(x: System, roles: Roles, after: Roles, base: set<nat>, op: Op, w: World)
    requires Accounted(x, roles, base) && Shaped(w.s)
    requires Account(w.s.vm.phys, after, base, x.stacks - {ReapedSlot(x.w.s, op)}, x.lost + InHand(Got(x, op)))
    requires x.lost !! InHand(Got(x, op))
    ensures var y := Filed(x, op, w); Account(w.s.vm.phys, after, base, y.stacks, y.lost)
  {
    var k, slot := Got(x, op), FindUnused(x.w.s.threads);
    if k == 0 {
      assert x.lost + InHand(k) == x.lost;
    } else {
      assert x.stacks - {ReapedSlot(x.w.s, op)} == x.stacks;
      if w.s.threads[slot].status != Unused { FileAccount(w.s.vm.phys, after, base, x.stacks, x.lost, slot, k); }
    }
  }

  /** What the kernel writes to its stacks reaches no space. */
  lemma PushAccounted(x: System, roles: Roles, base: set<nat>, slot: nat, i: nat, content: Frame)
    requires Accounted(x, roles, base) && Possible(x, Pushed(slot, i, content))
    ensures Accounted(Do(x, Pushed(slot, i, content)), roles, base)
  {
    var s := x.w.s.vm.phys;
    var f := x.stacks[slot] + i;
    var t := Phys(s.used, s.mem[f := content]);
    assert Owns(x.stacks, slot, f) && Kernels(base, x.stacks, x.lost, f);
    forall g | g in roles && g < |s.mem| ensures t.mem[g] == s.mem[g] && (roles[g].depth < 4 || t.mem[g].Data?) {
      assert FrameOk(s.mem, roles, g);
    }
    DataWriteKeepsMaps(s.mem, t.mem, roles);
    PhysSafe(x.w, roles, t);
    assert Account(t, roles, base, x.stacks, x.lost);
  }

  // ---------------------------------------------------------------------------------------
  // Runs
  // ---------------------------------------------------------------------------------------

  ghost predicate Feasible(x: System, ds: seq<Deed>)
    decreases |ds|
  {
    ds != [] ==> Possible(x, ds[0]) && Feasible(Do(x, ds[0]), ds[1..])
  }

  function Outcome(x: System, ds: seq<Deed>): System
    requires Feasible(x, ds)
    decreases |ds|
  {
    if ds == [] then x else Outcome(Do(x, ds[0]), ds[1..])
  }

  function InUse(s: Phys): set<nat> {
    set f: nat | f < |s.used| && s.used[f]
  }

  function Start(vm: Vm, kernel: nat): System {
    System(Boot(vm, kernel), map[], {})
  }

  lemma {:induction false} RunAccounted(x: System, roles: Roles, base: set<nat>, ds: seq<Deed>) returns (after: Roles)
    requires Accounted(x, roles, base) && Feasible(x, ds)
    ensures Accounted(Outcome(x, ds), after, base)
    decreases |ds|
  {
    after := roles;
    if ds != [] {
      match ds[0] {
        case Stepped(op) => after := StepAccounted(x, roles, base, op);
        case Pushed(slot, i, content) => PushAccounted(x, roles, base, slot, i, content);
      }
      after := RunAccounted(Do(x, ds[0]), after, base, ds[1..]);
    }
  }

  lemma StartAccounted(vm: Vm, kernel: nat)
    requires VmInv(vm, map[], kernel) && kernel != 0 && forall i :: 0 <= i < |vm.table| ==> vm.table[i].refs == 0
    ensures Accounted(Start(vm, kernel), map[], InUse(vm.phys))
  {
    BootSafe(vm, kernel);
    assert Boot(vm, kernel).boot[0] == Some(0);
    forall f: nat ensures Kernels(InUse(vm.phys), map[], {}, f) <==> f in InUse(vm.phys) {}
  }

  /** Over every run from boot, on all processors: the frames in use are those in use at boot, those with a
      place in a space, the four of each thread's kernel stack and those lost, and none is two of these;
      a thread has a kernel stack exactly if it is there and is no bootstrap thread; and everything is in
      order. */
  lemma EveryRun(vm: Vm, kernel: nat, ds: seq<Deed>) returns (roles: Roles)
    requires VmInv(vm, map[], kernel) && kernel != 0 && forall i :: 0 <= i < |vm.table| ==> vm.table[i].refs == 0
    requires Feasible(Start(vm, kernel), ds)
    ensures var x := Outcome(Start(vm, kernel), ds);
            && Shaped(x.w.s) && |x.w.boot| == MAX_CPUS && InOrder(x.w, roles) && HaveStacks(x.w, x.stacks)
            && Account(x.w.s.vm.phys, roles, InUse(vm.phys), x.stacks, x.lost)
  {
    StartAccounted(vm, kernel);
    roles := RunAccounted(Start(vm, kernel), map[], InUse(vm.phys), ds);
    SafeMeans(Outcome(Start(vm, kernel), ds).w, roles);
  }

  /** When all threads but the bootstrap threads have been reaped and no space is left, all frames are back
      that were not lost. */
  lemma AllReturned(vm: Vm, kernel: nat, ds: seq<Deed>, x: System)
    requires VmInv(vm, map[], kernel) && kernel != 0 && forall i :: 0 <= i < |vm.table| ==> vm.table[i].refs == 0
    requires Feasible(Start(vm, kernel), ds) && x == Outcome(Start(vm, kernel), ds)
    requires forall i: nat :: i < |x.w.s.threads| && x.w.s.threads[i].status != Unused ==> IsBoot(x.w.boot, i)
    requires forall d: nat :: Refs(x.w.s.vm.table, d) == 0
    ensures InUse(x.w.s.vm.phys) == InUse(vm.phys) + x.lost
  {
    var base, s := InUse(vm.phys), x.w.s.vm.phys;
    StartAccounted(vm, kernel);
    var roles := RunAccounted(Start(vm, kernel), map[], base, ds);
    forall r: nat ensures !IsRoot(roles, r) { assert Refs(x.w.s.vm.table, r) == 0; }
    forall f ensures f !in roles { assert f in roles ==> FrameOk(s.mem, roles, f) && !IsRoot(roles, roles[f].root); }
    assert x.stacks == map[];
    forall f: nat ensures Kernels(base, x.stacks, x.lost, f) <==> f in base + x.lost {}
  }

  /** A step loses a kernel stack exactly if it is the creation of a user thread that gets its kernel stack
      and for which there is then no user stack. */
  lemma LossExact(x: System, roles: Roles, base: set<nat>, op: Op)
    requires Accounted(x, roles, base) && Possible(x, Stepped(op))
    ensures Do(x, Stepped(op)).lost != x.lost <==>
            op.Created? && op.user && Asks(x.w.s, op) && Got(x, op) != 0 && !StackFits(Found(x, op), op.cr3)
  {
    var t, k := Found(x, op), Got(x, op);
    var w1, op1 := WithPhys(x.w, t), Answered(op, k != 0);
    FoundSafe(x, roles, base, op, t, k);
    if k != 0 {
      assert k in Frames(k);
      AskedSlots(w1, op1);
      if op.Created? && op.user {
        HeldExists(w1, roles, op.cr3);
        var (u, ok) := GiveStack(t, op.cr3);
        var _, _ := GiveStackLaw(t, roles, op.cr3, u, ok);
      }
    }
  }
}

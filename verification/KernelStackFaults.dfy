/** A run from boot that loses a kernel stack. */
module KernelStackFaults {
  import opened Paging
  import opened PageTree
  import opened SpaceLife
  import opened StackOps
  import opened Threads
  import opened ThreadRuns
  import opened ThreadFaults
  import opened KernelStacks
  import Pmm

  /** Only the last `n` frames, from `a` on, are free. */
  ghost predicate Tight(s: Phys, a: nat, n: nat) {
    Roomy(s, a, n) && |s.used| == a + n && forall f :: 0 <= f < a ==> s.used[f]
  }

  /** An allocation takes the lowest of them. */
  lemma TightAlloc(used: seq<bool>, a: nat, n: nat, m: nat)
    requires 0 < m <= n && 0 < a && |used| == a + n && forall f :: 0 <= f < |used| ==> used[f] == (f < a)
    ensures Pmm.Alloc(used, m) == (Pmm.Mark(used, a, m, true), a)
  {
    assert Pmm.FreeRun(used, a, m);
    forall k: nat | k < a ensures !Pmm.FreeRun(used, k, m) { assert used[k]; }
    Pmm.LowestRun(used, a, m);
  }

  lemma NoneLeft(used: seq<bool>, m: nat)
    requires 0 < m && forall f :: 0 <= f < |used| ==> used[f]
    ensures Pmm.Alloc(used, m).1 == 0
  {
    forall k: nat ensures !Pmm.FreeRun(used, k, m) { assert k < |used| ==> used[k]; }
    Pmm.AllocFirstFit(used, m);
  }

  /** The first space takes the first of five frames. */
  lemma MadeFirst(vm: Vm, kernel: nat, a: nat) returns (x: System, cr3: nat, roles: Roles)
    requires Bootable(vm, kernel, a, 5) && Tight(vm.phys, a, 5)
    ensures Possible(Start(vm, kernel), Stepped(NewSpace)) && x == Do(Start(vm, kernel), Stepped(NewSpace))
    ensures Accounted(x, roles, InUse(vm.phys)) && Tight(x.w.s.vm.phys, a + 1, 4) && x.stacks == map[] && x.lost == {}
    ensures cr3 in x.w.held && On(x.w.s, 0) && FindUnused(x.w.s.threads) < MAX_THREADS
  {
    var x0 := Start(vm, kernel);
    StartAccounted(vm, kernel);
    var w1, after;
    w1, cr3, after := FirstSpace(x0.w, a, 5);
    TightAlloc(vm.phys.used, a, 5, 1);
    assert WithPhys(x0.w, vm.phys) == x0.w;
    x := Do(x0, Stepped(NewSpace));
    roles := StepAccounted(x0, map[], InUse(vm.phys), NewSpace);
    assert x.w == w1 && x.w.s.threads[1].status == Unused;
  }

  lemma LastTaken(s: Phys, b: nat, root: nat)
    requires Tight(s, b, KSTACK_PAGES)
    ensures TakeStack(s).1 == b && !StackStarts(TakeStack(s).0, root)
  {
    TightAlloc(s.used, b, KSTACK_PAGES, KSTACK_PAGES);
    NoneLeft(TakeStack(s).0.used, USTACK_PAGES);
  }

  /** A user thread, when only the frames of a kernel stack are left. */
  lemma CreatedLast(x: System, roles: Roles, base: set<nat>, cr3: nat, b: nat) returns (d: Deed)
    requires Accounted(x, roles, base) && Tight(x.w.s.vm.phys, b, KSTACK_PAGES)
    requires cr3 in x.w.held && On(x.w.s, 0) && FindUnused(x.w.s.threads) < MAX_THREADS
    ensures Possible(x, d) && Do(x, d).lost == x.lost + Frames(b) && Do(x, d).stacks == x.stacks
  {
    var op := Created(0, 1, true, cr3, false);
    d := Stepped(op);
    HeldExists(x.w, roles, cr3);
    LastTaken(x.w.s.vm.phys, b, cr3);
    LossExact(x, roles, base, op);
  }

  /** With five frames left after boot, a space is made and a user thread created for it: the root takes one
      frame and the kernel stack the others, there is no user stack, and the kernel stack's frames are in
      use for good. */
  lemma StackLost(vm: Vm, kernel: nat, a: nat) returns (ds: seq<Deed>, x: System)
    requires Bootable(vm, kernel, a, 5) && Tight(vm.phys, a, 5)
    ensures Feasible(Start(vm, kernel), ds) && x == Outcome(Start(vm, kernel), ds)
    ensures x.lost == Frames(a + 1) && x.stacks == map[]
  {
    var x1, cr3, roles := MadeFirst(vm, kernel, a);
    var create := CreatedLast(x1, roles, InUse(vm.phys), cr3, a + 1);
    x := Do(x1, create);
    ds := [Stepped(NewSpace), create];
    assert ds[1..] == [create] && [create][1..] == [];
    assert Feasible(x1, [create]) && Outcome(x1, [create]) == Outcome(x, []);
  }

  /** Seven frames, the first two in use, and no space yet. */
  lemma FiveLeft()
    ensures var vm := Vm(Phys(seq(7, f => f < 2), seq(7, _ => ZeroPage())), [SpaceTable.Space(0, 0)]);
            Bootable(vm, 1, 2, 5) && Tight(vm.phys, 2, 5)
  {
    assert forall r: nat :: !IsRoot(map[], r);
  }
}

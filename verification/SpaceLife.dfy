/** Address spaces with their reference counts, from creation to the last release. */
module SpaceLife {
  import opened Paging
  import opened PageTree
  import opened Spaces
  import opened SpaceTable
  import Pmm

  datatype Vm = Vm(phys: Phys, table: Table)

  /** `vmm_create_user_space`: 0 stands for failure. */
  function CreateSpace(vm: Vm, kernel: nat): (Vm, nat) {
    var (s, f) := CreateRoot(vm.phys, kernel);
    if f == 0 then (Vm(s, vm.table), 0) else
    var (t, ok) := Register(vm.table, f);
    if ok then (Vm(s, t), f) else (Vm(FreeFrames(s, f, 1), t), 0)
  }

  /** `vmm_retain_user_space` */
  function RetainSpace(vm: Vm, cr3: nat, kernel: nat): Vm {
    Vm(vm.phys, Retain(vm.table, cr3, kernel))
  }

  /** `vmm_release_user_space` */
  function ReleaseSpace(vm: Vm, cr3: nat, kernel: nat): Vm {
    var (t, last) := Release(vm.table, cr3, kernel);
    Vm(if last then Destroy(vm.phys, cr3) else vm.phys, t)
  }

  /** The spaces with references are the ones that exist as trees, the kernel's not among them. */
  ghost predicate VmInv(vm: Vm, roles: Roles, kernel: nat) {
    && Inv(vm.phys, roles) && Distinct(vm.table)
    && kernel !in roles && kernel < |vm.phys.used| && vm.phys.used[kernel]
    && (forall r: nat {:trigger IsRoot(roles, r)} :: IsRoot(roles, r) <==> Refs(vm.table, r) > 0)
  }

  /** A new space has one reference, no pages and its own root; when there is no frame or no slot
      for it nothing is kept. */
  lemma CreateSpaceStep(vm: Vm, roles: Roles, kernel: nat) returns (after: Roles)
    requires VmInv(vm, roles, kernel)
    ensures var (w, root) := CreateSpace(vm, kernel);
            && VmInv(w, after, kernel) && OnlySpace(vm.phys, roles, w.phys, after, root)
            && (root == 0 ==> after == roles && w.table == vm.table && w.phys.used == vm.phys.used)
            && (root != 0 ==> root !in roles && IsRoot(after, root) && Refs(w.table, root) == 1
                              && PageMap(w.phys.mem, root) == map[]
                              && EntryAt(w.phys.mem, root, 0) == EntryAt(vm.phys.mem, kernel, 0))
  {
    var grown := CreateRootStep(vm.phys, roles, kernel);
    var (s, f) := CreateRoot(vm.phys, kernel);
    after := roles;
    if f != 0 {
      RegisterRoot(vm.table, roles, f);
      if Register(vm.table, f).1 {
        after := grown;
      } else {
        DiscardRoot(vm.phys, roles, s, f);
      }
    }
  }

  lemma RegisterRoot(t: Table, roles: Roles, f: nat)
    requires Distinct(t) && f != 0 && f !in roles
    requires forall r: nat {:trigger IsRoot(roles, r)} :: IsRoot(roles, r) <==> Refs(t, r) > 0
    ensures var (u, ok) := Register(t, f);
            var grown := if ok then roles[f := Role(f, 0, Top, f)] else roles;
            && Distinct(u) && (ok ==> Refs(u, f) == 1) && (!ok ==> u == t)
            && forall r: nat {:trigger IsRoot(grown, r)} :: IsRoot(grown, r) <==> Refs(u, r) > 0
  {
    var (u, ok) := Register(t, f);
    var grown := if ok then roles[f := Role(f, 0, Top, f)] else roles;
    assert !IsRoot(roles, f);
    RegisterLaw(t, f, f);
    forall r: nat ensures IsRoot(grown, r) <==> Refs(u, r) > 0 {
      RegisterLaw(t, f, r);
      assert IsRoot(roles, r) <==> Refs(t, r) > 0;
    }
  }

  lemma DiscardRoot(s: Phys, roles: Roles, t: Phys, f: nat)
    requires Inv(s, roles) && 0 < f < |s.used| && !s.used[f]
    requires |t.mem| == |s.mem| && t.used == s.used[f := true]
    requires forall g: nat :: g < |s.mem| && g != f ==> t.mem[g] == s.mem[g]
    ensures Inv(FreeFrames(t, f, 1), roles) && FreeFrames(t, f, 1).used == s.used
    ensures OnlySpace(s, roles, FreeFrames(t, f, 1), roles, 0)
  {
    forall g | g in roles ensures g != f && FrameOk(s.mem, roles, g) {}
    DataWriteKeepsMaps(s.mem, t.mem, roles);
  }

  /** Only the last release changes memory: it returns exactly the frames of the space. */
  lemma ReleaseSpaceStep(vm: Vm, roles: Roles, kernel: nat, cr3: nat)
    requires VmInv(vm, roles, kernel) && IsRoot(roles, cr3)
    ensures var w := ReleaseSpace(vm, cr3, kernel);
            var after := if Refs(vm.table, cr3) == 1 then Without(roles, cr3) else roles;
            && VmInv(w, after, kernel)
            && Refs(w.table, cr3) == Refs(vm.table, cr3) - 1
            && OnlySpace(vm.phys, roles, w.phys, after, cr3)
            && (Refs(vm.table, cr3) > 1 ==> w.phys == vm.phys)
  {
    forall d: nat { ReleaseLaw(vm.table, cr3, kernel, d); }
    DestroyStep(vm.phys, roles, cr3);
    var gone := Without(roles, cr3);
    assert ElsewhereUsed(vm.phys, roles, cr3, kernel);
    assert ElsewhereUsed(Destroy(vm.phys, cr3), gone, cr3, kernel);
    forall r: nat ensures IsRoot(gone, r) <==> IsRoot(roles, r) && r != cr3 {
      assert r in roles ==> FrameOk(vm.phys.mem, roles, r);
    }
  }

  lemma RetainSpaceStep(vm: Vm, roles: Roles, kernel: nat, cr3: nat)
    requires VmInv(vm, roles, kernel) && IsRoot(roles, cr3)
    ensures var w := RetainSpace(vm, cr3, kernel);
            VmInv(w, roles, kernel) && w.phys == vm.phys && Refs(w.table, cr3) == Refs(vm.table, cr3) + 1
  {
    forall d: nat { RetainLaw(vm.table, cr3, kernel, d); }
  }

  lemma PageStep(vm: Vm, roles: Roles, kernel: nat, root: nat, op: PageOp) returns (after: Roles)
    requires VmInv(vm, roles, kernel) && IsRoot(roles, root) && UserPage(op.v)
    ensures var w := Vm(Apply(vm.phys, root, op), vm.table);
            VmInv(w, after, kernel) && OnlySpace(vm.phys, roles, w.phys, after, root)
  {
    after := ApplyStep(vm.phys, roles, root, op);
    assert ElsewhereUsed(vm.phys, roles, root, kernel);
    assert ElsewhereUsed(Apply(vm.phys, root, op), after, root, kernel);
  }

  /** Whatever is done within one space only leaves the table of spaces right. */
  lemma OneSpaceStep(vm: Vm, roles: Roles, kernel: nat, root: nat, t: Phys, after: Roles)
    requires VmInv(vm, roles, kernel) && IsRoot(roles, root)
    requires Inv(t, after) && IsRoot(after, root) && OnlySpace(vm.phys, roles, t, after, root)
    ensures VmInv(Vm(t, vm.table), after, kernel)
  {
    assert ElsewhereUsed(vm.phys, roles, root, kernel);
    assert ElsewhereUsed(t, after, root, kernel);
    forall r: nat ensures IsRoot(after, r) <==> IsRoot(roles, r) {
      assert (r in roles ==> FrameOk(vm.phys.mem, roles, r)) && (r in after ==> FrameOk(t.mem, after, r));
    }
  }

  /** The last reference to a space goes, and with it the space, in whatever state it is left. */
  lemma LastReleaseStep(vm: Vm, roles: Roles, kernel: nat, root: nat, t: Phys, z: Phys, rest: Roles)
    requires VmInv(vm, roles, kernel) && IsRoot(roles, root) && Refs(vm.table, root) == 1
    requires z == Destroy(t, root) && rest == Without(roles, root) && Inv(z, rest) && OnlySpace(vm.phys, roles, z, rest, root)
    ensures ReleaseSpace(Vm(t, vm.table), root, kernel).phys == z
    ensures VmInv(ReleaseSpace(Vm(t, vm.table), root, kernel), rest, kernel)
  {
    forall d: nat { ReleaseLaw(vm.table, root, kernel, d); }
    assert ElsewhereUsed(vm.phys, roles, root, kernel);
    assert ElsewhereUsed(z, rest, root, kernel);
    forall r: nat ensures IsRoot(rest, r) <==> IsRoot(roles, r) && r != root {
      assert r in roles ==> FrameOk(vm.phys.mem, roles, r);
    }
  }

  // ---------------------------------------------------------------------------------------
  // A whole life
  // ---------------------------------------------------------------------------------------

  datatype LifeOp = Page(op: PageOp) | Get | Put

  function LifeStep(vm: Vm, root: nat, kernel: nat, op: LifeOp): Vm {
    match op
    case Page(p) => Vm(Apply(vm.phys, root, p), vm.table)
    case Get => RetainSpace(vm, root, kernel)
    case Put => ReleaseSpace(vm, root, kernel)
  }

  function Life(vm: Vm, root: nat, kernel: nat, ops: seq<LifeOp>): Vm
    decreases |ops|
  {
    if ops == [] then vm else Life(LifeStep(vm, root, kernel, ops[0]), root, kernel, ops[1..])
  }

  /** The space is used only while it has references, and only at user pages. */
  predicate Proper(vm: Vm, root: nat, kernel: nat, ops: seq<LifeOp>)
    decreases |ops|
  {
    ops != [] ==>
      && Refs(vm.table, root) > 0
      && (ops[0].Page? ==> UserPage(ops[0].op.v))
      && Proper(LifeStep(vm, root, kernel, ops[0]), root, kernel, ops[1..])
  }

  lemma {:induction false} LifeRun(vm: Vm, roles: Roles, root: nat, kernel: nat, ops: seq<LifeOp>) returns (after: Roles)
    requires VmInv(vm, roles, kernel) && Proper(vm, root, kernel, ops)
    ensures var w := Life(vm, root, kernel, ops);
            VmInv(w, after, kernel) && OnlySpace(vm.phys, roles, w.phys, after, root)
    decreases |ops|
  {
    if ops == [] {
      after := roles;
    } else {
      var w := LifeStep(vm, root, kernel, ops[0]);
      var r := roles;
      assert IsRoot(roles, root);
      match ops[0] {
        case Page(p) => r := PageStep(vm, roles, kernel, root, p);
        case Get => RetainSpaceStep(vm, roles, kernel, root);
        case Put =>
          ReleaseSpaceStep(vm, roles, kernel, root);
          r := if Refs(vm.table, root) == 1 then Without(roles, root) else roles;
      }
      after := LifeRun(w, r, root, kernel, ops[1..]);
      OnlySpaceTrans(vm.phys, roles, w.phys, r, Life(vm, root, kernel, ops).phys, after, root);
    }
  }

  /** A space created, mapped and unmapped in any way, shared and released any number of times,
      leaves the bitmap, the count of free frames and the contents of every frame allocated
      beforehand - the kernel's included - exactly as they were once its last reference is gone. */
  lemma LifetimeConserves(vm: Vm, roles: Roles, kernel: nat, ops: seq<LifeOp>)
    requires VmInv(vm, roles, kernel)
    requires CreateSpace(vm, kernel).1 != 0
    requires Proper(CreateSpace(vm, kernel).0, CreateSpace(vm, kernel).1, kernel, ops)
    requires Refs(Life(CreateSpace(vm, kernel).0, CreateSpace(vm, kernel).1, kernel, ops).table, CreateSpace(vm, kernel).1) == 0
    ensures var (w, root) := CreateSpace(vm, kernel);
            var z := Life(w, root, kernel, ops);
            && z.phys.used == vm.phys.used && Pmm.CountFree(z.phys.used) == Pmm.CountFree(vm.phys.used)
            && |z.phys.mem| == |vm.phys.mem|
            && (forall f: nat :: f < |vm.phys.mem| && vm.phys.used[f] ==> z.phys.mem[f] == vm.phys.mem[f])
            && VmInv(z, roles, kernel)
  {
    var (w, root) := CreateSpace(vm, kernel);
    var r := CreateSpaceStep(vm, roles, kernel);
    var z := Life(w, root, kernel, ops);
    var after := LifeRun(w, r, root, kernel, ops);
    OnlySpaceTrans(vm.phys, roles, w.phys, r, z.phys, after, root);
    forall f | f in roles ensures roles[f].root != root { assert FrameOk(vm.phys.mem, roles, f); }
    forall f | f in after ensures after[f].root != root {
      assert FrameOk(z.phys.mem, after, f);
      assert !IsRoot(after, root);
    }
    GoneMeansConserved(vm.phys, roles, z.phys, after, root);
  }
}

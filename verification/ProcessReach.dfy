/** The pages of a process: user code reaches them, and with which permissions. */
module ProcessReach {
  import opened Basics
  import opened Align
  import opened Paging
  import opened PageTree
  import opened PageRuns
  import opened RunOps
  import opened BreakLaws
  import opened ProcessOps
  import opened ProcessRuns
  import opened UserReach
  import opened RunReach

  lemma BrkOpen(s: Phys, roles: Roles, root: nat, brkStart: U64, brkEnd: U64, newEnd: U64, t: Phys, ok: bool)
    requires Inv(s, roles) && IsRoot(roles, root) && UserBound(AlignUp(brkEnd)) && UserBound(BreakTarget(brkStart, newEnd))
    requires BrksTo(s, root, brkStart, brkEnd, newEnd, t, ok) && AllOpen(s.mem, root)
    ensures AllOpen(t.mem, root)
  {
    var a, b := AlignUp(brkEnd), BreakTarget(brkStart, newEnd);
    var n, k := SetBrkRuns(s, root, brkStart, brkEnd, newEnd, a, b, t, ok);
    if b / PAGE_SIZE > a / PAGE_SIZE {
      MapRunOpen(s, roles, root, a, a / PAGE_SIZE, n, HEAP_FLAGS, t, k);
    } else {
      UnmapRunOpen(s, roles, root, b, b / PAGE_SIZE, n, t);
    }
  }

  lemma MmapOpen(s: Phys, roles: Roles, root: nat, mmapBase: U64, addr: U64, len: U64, prot: int, v: nat, n: nat,
                 t: Phys, base: Option<U64>, next: U64)
    requires Inv(s, roles) && IsRoot(roles, root) && len != 0
    requires n == MmapPages(len) && Pages(MmapStart(mmapBase, addr), v, n)
    requires MmapsTo(s, root, mmapBase, addr, len, MmapFlags(prot), t, base, next) && AllOpen(s.mem, root)
    ensures AllOpen(t.mem, root)
  {
    var start := MmapStart(mmapBase, addr);
    var (u, k) := MapRun(s, root, start, n, MmapFlags(prot));
    MapRunOpen(s, roles, root, start, v, n, MmapFlags(prot), u, k);
    if k != n {
      var ds, r := MapRunLaw(s, roles, root, start, v, n, MmapFlags(prot), u, k);
      UnmapRunOpen(u, r, root, start, v, k, t);
    }
  }

  /** Each call leaves the process's pages within reach of user code. */
  lemma StepOpen(l: Layout, p: Proc, roles: Roles, c: Call, p': Proc)
    requires ProcessRuns.Sound(l, p, roles) && Allowed(l, p, c) && p' == Step(l, p, c) && AllOpen(p.phys.mem, l.root)
    ensures AllOpen(p'.phys.mem, l.root)
  {
    match c
    case Brk(newEnd) =>
      if newEnd != 0 {
        var t, ok := BrkRuns(l, p, newEnd, p');
        TargetIs(l.brkStart, newEnd);
        BrkOpen(p.phys, roles, l.root, l.brkStart, p.brkEnd, newEnd, t, ok);
      }
    case Map(addr, len, prot) =>
      var t, base, next := MapRuns(l, p, addr, len, prot, p');
      if len != 0 {
        var v, n := MmapStart(p.mmapBase, addr) / PAGE_SIZE, MmapPages(len);
        RunPlaced(l, p, addr, len, v, n);
        MmapOpen(p.phys, roles, l.root, p.mmapBase, addr, len, prot, v, n, t, base, next);
      }
  }

  lemma OpenNext(l: Layout, ps: seq<Proc>, calls: seq<Call>, k: nat, roles: Roles) returns (next: nat, after: Roles)
    requires IsRun(l, ps, calls) && k < |calls| && ProcessRuns.Sound(l, ps[k], roles) && AllOpen(ps[k].phys.mem, l.root)
    ensures next == k + 1 && ProcessRuns.Sound(l, ps[next], after) && AllOpen(ps[next].phys.mem, l.root)
  {
    assert RunsAt(l, ps, calls, k);
    StepOpen(l, ps[k], roles, calls[k], ps[k + 1]);
    next, after := NextKeeps(l, ps, calls, k, roles);
  }

  lemma {:induction false} RunOpen(l: Layout, ps: seq<Proc>, calls: seq<Call>, i: nat, k: nat,
                                   roles: Roles) returns (after: Roles)
    requires IsRun(l, ps, calls) && i <= k < |ps| && ProcessRuns.Sound(l, ps[i], roles) && AllOpen(ps[i].phys.mem, l.root)
    ensures ProcessRuns.Sound(l, ps[k], after) && AllOpen(ps[k].phys.mem, l.root)
    decreases k - i
  {
    after := roles;
    if i < k {
      var next;
      next, after := OpenNext(l, ps, calls, i, roles);
      after := RunOpen(l, ps, calls, next, k, after);
    }
  }

  /** In every run of allowed calls, at every point, user code reaches every page that is mapped. */
  lemma EveryRunOpen(l: Layout, ps: seq<Proc>, calls: seq<Call>, k: nat, roles: Roles) returns (after: Roles)
    requires IsRun(l, ps, calls) && k < |ps| && ProcessRuns.Sound(l, ps[0], roles) && AllOpen(ps[0].phys.mem, l.root)
    ensures ProcessRuns.Sound(l, ps[k], after) && AllReached(ps[k].phys.mem, l.root)
  {
    after := RunOpen(l, ps, calls, 0, k, roles);
    AllReachable(ps[k].phys.mem, l.root);
  }

  // ---------------------------------------------------------------------------------------
  // Permissions
  // ---------------------------------------------------------------------------------------

  /** Every page that is new grants this, and the others are as they were. */
  ghost predicate NewGrant(m: map<nat, Entry>, m': map<nat, Entry>, write: bool, exec: bool) {
    && (forall v: nat :: v in m' && v !in m ==> Grants(m'[v], write, exec))
    && (forall v: nat :: v in m && v in m' ==> m'[v] == m[v])
  }

  lemma ExtendGrants(m: map<nat, Entry>, v: nat, ds: seq<nat>, flags: Flags, write: bool, exec: bool)
    requires Vacant(m, v, |ds|) && flags.user && flags.writable == write && flags.noExec == !exec
    ensures NewGrant(m, Extend(m, v, ds, flags), write, exec)
  {
    forall w: nat
      ensures w in Extend(m, v, ds, flags) && w !in m ==> Grants(Extend(m, v, ds, flags)[w], write, exec)
      ensures w in m && w in Extend(m, v, ds, flags) ==> Extend(m, v, ds, flags)[w] == m[w]
    {
      ExtendAt(m, v, ds, flags, w);
    }
  }

  lemma DropGrants(m: map<nat, Entry>, v: nat, n: nat, write: bool, exec: bool)
    ensures NewGrant(m, Drop(m, v, n), write, exec)
  {
    forall w: nat ensures w in Drop(m, v, n) ==> w in m && Drop(m, v, n)[w] == m[w] { DropAt(m, v, n, w); }
  }

  /** The pages that a growth of the heap adds can be read, written and executed; no page that stays mapped
      changes. */
  lemma BrkGrants(l: Layout, p: Proc, roles: Roles, newEnd: U64, p': Proc)
    requires ProcessRuns.Sound(l, p, roles) && newEnd != 0
    requires l.Low() <= PageUp(newEnd) <= l.limit && p' == Step(l, p, Brk(newEnd))
    ensures NewGrant(Pm(l, p), Pm(l, p'), true, true)
  {
    var t, ok := BrkRuns(l, p, newEnd, p');
    TargetIs(l.brkStart, newEnd);
    var n, ds, after := BrkOnMaps(p.phys, roles, l.root, l.brkStart, p.brkEnd, newEnd, t, ok);
    var cur, end := PageUp(p.brkEnd), PageUp(newEnd);
    if end > cur { ExtendGrants(Pm(l, p), cur, ds, HEAP_FLAGS, true, true); } else { DropGrants(Pm(l, p), end, cur - end, true, true); }
  }

  /** The pages that an anonymous mapping adds can be written exactly if bit 1 of the protection asked for is
      set, and executed exactly if bit 2 is; no other page changes. */
  lemma MapGrants(l: Layout, p: Proc, roles: Roles, addr: U64, len: U64, prot: int, p': Proc)
    requires ProcessRuns.Sound(l, p, roles) && Allowed(l, p, Map(addr, len, prot)) && p' == Step(l, p, Map(addr, len, prot))
    ensures NewGrant(Pm(l, p), Pm(l, p'), prot / 2 % 2 == 1, prot / 4 % 2 == 1)
    ensures forall v: nat :: v in Pm(l, p) ==> v in Pm(l, p')
  {
    var t, base, next := MapRuns(l, p, addr, len, prot, p');
    if len != 0 {
      var v, n := MmapStart(p.mmapBase, addr) / PAGE_SIZE, MmapPages(len);
      RunPlaced(l, p, addr, len, v, n);
      var ds, after := MmapLaw(p.phys, roles, l.root, p.mmapBase, addr, len, MmapFlags(prot), v, n, t, base, next);
      if base.None? {
        ExtendGrants(Pm(l, p), 0, [], MmapFlags(prot), prot / 2 % 2 == 1, prot / 4 % 2 == 1);
      } else {
        ExtendGrants(Pm(l, p), v, ds, MmapFlags(prot), prot / 2 % 2 == 1, prot / 4 % 2 == 1);
        forall w: nat | w in Pm(l, p) ensures w in Pm(l, p') { ExtendAt(Pm(l, p), v, ds, MmapFlags(prot), w); }
      }
    }
  }
}

/** The user stack that `thread_create_user` and `SYS_execve` give a space, on values: a contiguous run
    of frames, mapped page by page with `vmm_map_range`, and what is left when that stops half-way. */
module StackOps {
  import opened Align
  import opened Paging
  import opened PageTree
  import opened PageMapLaws
  import opened Spaces
  import opened PageRuns
  import opened TableNeeds
  import opened RunOps
  import Pmm

  const USTACK_PAGES: nat := 4
  const USER_STACK_TOP: U64 := 0xFF_FFFF_F000
  const USER_STACK_BASE: U64 := USER_STACK_TOP - USTACK_PAGES * PAGE_SIZE
  const STACK_FLAGS := NO_FLAGS.(present := true, writable := true, user := true)

  /** The page at which the stack begins. */
  const STACK_PAGE: nat := 0xFFF_FFFB

  /** `pmm_alloc_pages` of `n` frames and the `memset` that clears them; 0 stands for failure. */
  function AllocRun(s: Phys, n: nat): (Phys, nat) {
    var (u, k) := Pmm.Alloc(s.used, n);
    if k == 0 then (Phys(u, s.mem), 0) else (Phys(u, ZeroedRun(s.mem, k, n)), k)
  }

  function ZeroedRun(mem: seq<Frame>, k: nat, n: nat): (r: seq<Frame>)
    ensures |r| == |mem| && forall f :: 0 <= f < |mem| ==> r[f] == if k <= f < k + n then ZeroPage() else mem[f]
  {
    seq(|mem|, f requires 0 <= f < |mem| => if k <= f < k + n then ZeroPage() else mem[f])
  }

  /** `vmm_map_range`: frame `d` and those after it at `virt` and the pages after it, up to the first
      page that cannot be mapped; and how many were. */
  function MapRange(s: Phys, root: nat, virt: U64, d: nat, n: nat, flags: Flags): (r: (Phys, nat))
    ensures r.1 <= n
    decreases n, 1
  {
    if n == 0 then (s, 0)
    else RangeRest(MapPage(s, root, PathOf(PageOf(virt)), d, flags), root, Add64(virt, PAGE_SIZE), d + 1, n - 1, flags)
  }

  function RangeRest(first: (Phys, bool), root: nat, virt: U64, d: nat, n: nat, flags: Flags): (r: (Phys, nat))
    ensures r.1 <= n + 1
    decreases n + 1, 0
  {
    if !first.1 then (first.0, 0) else
    var rest := MapRange(first.0, root, virt, d, n, flags);
    (rest.0, rest.1 + 1)
  }

  /** A stack for the space of `root`; a run that cannot be mapped as a whole goes back, and what was
      mapped of it stays mapped. */
  function GiveStack(s: Phys, root: nat): (Phys, bool) {
    var (a, k) := AllocRun(s, USTACK_PAGES);
    if k == 0 then (a, false) else
    var (t, done) := MapRange(a, root, USER_STACK_BASE, k, USTACK_PAGES, STACK_FLAGS);
    if done == USTACK_PAGES then (t, true) else (FreeFrames(t, k, USTACK_PAGES), false)
  }

  // ---------------------------------------------------------------------------------------
  // One page of the range
  // ---------------------------------------------------------------------------------------

  /** The `m` frames from `d` on are allocated, cleared and not yet anywhere. */
  ghost predicate Spare(t: Phys, roles: Roles, d: nat, m: nat) {
    0 < d && Inv(t, roles) && forall f: nat :: d <= f < d + m ==> FreshData(t, roles, f) && t.mem[f] == ZeroPage()
  }

  /** What a page of the range comes to, the frames still spare taken as free. */
  lemma RangePage(t: Phys, roles: Roles, root: nat, w: nat, p: Path, d: nat, m: nat, flags: Flags, u: Phys, ok: bool,
                  e: nat, r: nat)
    returns (more: Roles)
    requires Spare(t, roles, d, m) && m > 0 && IsRoot(roles, root) && UserPage(w) && p == PathOf(w)
    requires (u, ok) == MapPage(t, root, p, d, flags) && e == (if ok then d + 1 else d) && r == if ok then m - 1 else m
    ensures Spare(u, more, e, r) && IsRoot(more, root)
    ensures Mapped(FreeFrames(t, d, m), roles, FreeFrames(u, e, r), more, root, w, if ok then [d] else [], flags)
    ensures ok <==> w !in PageMap(t.mem, root) && Missing(t.mem, root, p.up) <= Pmm.CountFree(t.used)
    ensures PageMap(u.mem, root) == if ok then PageMap(t.mem, root)[w := Entry(d, flags.(present := true))] else PageMap(t.mem, root)
  {
    PathOfPage(w);
    assert FreshData(t, roles, d);
    MapPageLaw(t, roles, root, w, d, flags, root);
    more := MapPageStep(t, roles, root, p, d, flags);
    SpareLeft(t, roles, root, d, m, u, more, ok, e, r);
    SpareMapped(t, roles, root, w, d, m, u, more, ok, e, r, flags);
  }

  lemma SpareLeft(t: Phys, roles: Roles, root: nat, d: nat, m: nat, u: Phys, more: Roles, ok: bool, e: nat, r: nat)
    requires Spare(t, roles, d, m) && m > 0 && e == (if ok then d + 1 else d) && r == if ok then m - 1 else m
    requires Inv(u, more) && Grows(t, roles, u, more, root, d, ok)
    ensures Spare(u, more, e, r)
  {
    forall f: nat | e <= f < e + r ensures FreshData(u, more, f) && u.mem[f] == ZeroPage() { assert FreshData(t, roles, f); }
  }

  lemma SpareMapped(t: Phys, roles: Roles, root: nat, w: nat, d: nat, m: nat, u: Phys, more: Roles, ok: bool, e: nat,
                    r: nat, flags: Flags)
    requires Spare(t, roles, d, m) && m > 0 && IsRoot(roles, root) && e == (if ok then d + 1 else d) && r == if ok then m - 1 else m
    requires Spare(u, more, e, r) && Grows(t, roles, u, more, root, d, ok) && UserPage(w) && (ok ==> Placed(more, root, PathOf(w), d))
    requires PageMap(u.mem, root) == if ok then PageMap(t.mem, root)[w := Entry(d, flags.(present := true))] else PageMap(t.mem, root)
    requires ok ==> w !in PageMap(t.mem, root)
    ensures Mapped(FreeFrames(t, d, m), roles, FreeFrames(u, e, r), more, root, w, if ok then [d] else [], flags)
  {
    var x, y := FreeFrames(t, d, m), FreeFrames(u, e, r);
    assert FreshData(t, roles, d);
    SpareInv(u, more, e, r);
    SpareGrew(t, roles, root, w, d, m, u, more, ok, e, r, x, y);
    MapFreshFacts(x, roles, y, more, root, w, flags, ok, d);
  }

  /** Spare frames can be taken as free. */
  lemma SpareInv(t: Phys, roles: Roles, d: nat, m: nat)
    requires Spare(t, roles, d, m)
    ensures Inv(FreeFrames(t, d, m), roles)
  {
    forall f | f in roles ensures f < d || d + m <= f { NotSpare(t, roles, d, m, f); }
  }

  lemma NotSpare(t: Phys, roles: Roles, d: nat, m: nat, f: nat)
    requires Spare(t, roles, d, m) && f in roles
    ensures f < d || d + m <= f
  {
    assert d <= f < d + m ==> FreshData(t, roles, f);
  }

  lemma SpareGrew(t: Phys, roles: Roles, root: nat, w: nat, d: nat, m: nat, u: Phys, more: Roles, ok: bool, e: nat,
                  r: nat, x: Phys, y: Phys)
    requires Spare(t, roles, d, m) && m > 0 && IsRoot(roles, root) && e == (if ok then d + 1 else d) && r == if ok then m - 1 else m
    requires Spare(u, more, e, r) && Grows(t, roles, u, more, root, d, ok) && UserPage(w) && (ok ==> Placed(more, root, PathOf(w), d))
    requires x == FreeFrames(t, d, m) && y == FreeFrames(u, e, r)
    ensures GrewBy(x, roles, y, more, root, w, if ok then 1 else 0) && OnlySpace(x, roles, y, more, root) && IsRoot(more, root)
  {
    SpareUsed(t, roles, root, d, m, u, more, ok, e, r, x.used, y.used);
    if ok { PlacedDepth(u, more, root, w, d); }
    GrewOne(x, roles, y, more, root, w, ok);
    forall f: nat ensures ElsewhereUsed(y, more, root, f) <==> ElsewhereUsed(x, roles, root, f) {}
  }

  lemma PlacedDepth(u: Phys, roles: Roles, root: nat, w: nat, d: nat)
    requires Inv(u, roles) && Placed(roles, root, PathOf(w), d) && UserPage(w)
    ensures roles[d].depth == 4
  {
    PathOfPage(w);
    assert FrameOk(u.mem, roles, d);
  }

  lemma SpareUsed(t: Phys, roles: Roles, root: nat, d: nat, m: nat, u: Phys, more: Roles, ok: bool, e: nat, r: nat,
                  a: seq<bool>, b: seq<bool>)
    requires Spare(t, roles, d, m) && m > 0 && e == (if ok then d + 1 else d) && r == if ok then m - 1 else m
    requires Spare(u, more, e, r) && Grows(t, roles, u, more, root, d, ok)
    requires a == Pmm.Free(t.used, d, m) && b == Pmm.Free(u.used, e, r)
    ensures |b| == |a| && forall f: nat :: f < |a| ==> b[f] == (a[f] || f in more)
    ensures forall f: nat :: f < |a| && a[f] ==> t.used[f]
    ensures forall f :: f in more && f !in roles ==> f < |a| && !a[f]
  {
    forall f: nat | f < |a| ensures b[f] == (a[f] || f in more) {
      if e <= f < e + r { assert FreshData(u, more, f); }
    }
    assert FreshData(t, roles, d);
  }

  // ---------------------------------------------------------------------------------------
  // The range
  // ---------------------------------------------------------------------------------------

  predicate RangesTo(s: Phys, root: nat, virt: U64, d: nat, n: nat, flags: Flags, u: Phys, k: nat) {
    (u, k) == MapRange(s, root, virt, d, n, flags)
  }

  lemma RangeUnfold(s: Phys, root: nat, virt: U64, d: nat, n: nat, flags: Flags, w: nat, t: Phys, ok: bool,
                    next: U64, d': nat, m: nat, u: Phys, k: nat) returns (j: nat)
    requires n == m + 1 && w == PageOf(virt) && (t, ok) == MapPage(s, root, PathOf(w), d, flags)
    requires next == Add64(virt, PAGE_SIZE) && d' == d + 1
    requires RangesTo(s, root, virt, d, n, flags, u, k)
    ensures ok ==> k == j + 1 && RangesTo(t, root, next, d', m, flags, u, j)
    ensures !ok ==> u == t && k == 0
  {
    assert MapRange(s, root, virt, d, n, flags) == RangeRest((t, ok), root, next, d', n - 1, flags);
    j := if ok then k - 1 else 0;
  }

  /** `j` pages from `w` on got the frames from `d` on, and the `r` frames from `e` on are still spare. */
  ghost predicate Ranged(t: Phys, roles: Roles, root: nat, w: nat, d: nat, m: nat, flags: Flags,
                         u: Phys, j: nat, ds: seq<nat>, more: Roles, e: nat, r: nat) {
    && e == d + j && m == r + j && |ds| == j && (forall i :: 0 <= i < j ==> ds[i] == d + i)
    && Spare(u, more, e, r) && Mapped(FreeFrames(t, d, m), roles, FreeFrames(u, e, r), more, root, w, ds, flags)
  }

  lemma RangedOn(t: Phys, roles: Roles, root: nat, w: nat, d: nat, m: nat, flags: Flags, t': Phys, more: Roles,
                 w': nat, d': nat, m': nat,
                 u: Phys, j: nat, ds: seq<nat>, last: Roles, e: nat, r: nat)
    requires w' == w + 1 && d' == d + 1 && m == m' + 1
    requires Mapped(FreeFrames(t, d, m), roles, FreeFrames(t', d', m'), more, root, w, [d], flags)
    requires Ranged(t', more, root, w', d', m', flags, u, j, ds, last, e, r)
    ensures Ranged(t, roles, root, w, d, m, flags, u, j + 1, [d] + ds, last, e, r)
  {
    MappedThen(FreeFrames(t, d, m), roles, FreeFrames(t', d', m'), more, FreeFrames(u, e, r), last, root, w, [d], ds, flags);
  }

  /** However far `vmm_map_range` comes, it has mapped the first pages of the range onto the first
      frames of the run, and the other frames are nowhere. */
  lemma {:induction false} RangeLaw(t: Phys, roles: Roles, root: nat, virt: U64, w: nat, d: nat, m: nat,
                                    flags: Flags, u: Phys, j: nat)
    returns (ds: seq<nat>, more: Roles, e: nat, r: nat)
    requires Spare(t, roles, d, m) && IsRoot(roles, root) && Pages(virt, w, m) && RangesTo(t, root, virt, d, m, flags, u, j)
    ensures Ranged(t, roles, root, w, d, m, flags, u, j, ds, more, e, r)
    decreases m
  {
    if m == 0 {
      SpareInv(t, roles, d, m);
      MappedNone(FreeFrames(t, d, m), roles, root, w, flags);
      ds, more, e, r := [], roles, d, 0;
    } else {
      var next, w', m' := PagesNext(virt, w, m);
      var (t', ok) := MapPage(t, root, PathOf(w), d, flags);
      e := if ok then d + 1 else d;
      r := if ok then m' else m;
      more := RangePage(t, roles, root, w, PathOf(w), d, m, flags, t', ok, e, r);
      var d' := d + 1;
      var i := RangeUnfold(t, root, virt, d, m, flags, w, t', ok, next, d', m', u, j);
      ds := [];
      if ok {
        var more';
        ds, more', e, r := RangeLaw(t', more, root, next, w', d', m', flags, u, i);
        RangedOn(t, roles, root, w, d, m, flags, t', more, w', d', m', u, i, ds, more', e, r);
        ds, more := [d] + ds, more';
      }
    }
  }

  /** All `m` pages from `w` on are in the table at `up`. */
  ghost predicate OneTable(w: nat, m: nat, up: Path) {
    forall v: nat :: InRun(v, w, m) ==> PathOf(v).up == up
  }

  /** Pages of one table: anything is mapped exactly if the first page is vacant and the tables for it
      can be had, and everything exactly if moreover all the pages are vacant. */
  lemma {:induction false} RangeFar(t: Phys, roles: Roles, root: nat, virt: U64, w: nat, d: nat, m: nat,
                                    flags: Flags, u: Phys, j: nat, up: Path)
    requires Spare(t, roles, d, m) && IsRoot(roles, root) && Pages(virt, w, m) && RangesTo(t, root, virt, d, m, flags, u, j)
    requires m > 0 && OneTable(w, m, up)
    ensures j > 0 <==> w !in PageMap(t.mem, root) && Missing(t.mem, root, up) <= Pmm.CountFree(t.used)
    ensures j == m <==> Vacant(PageMap(t.mem, root), w, m) && Missing(t.mem, root, up) <= Pmm.CountFree(t.used)
    decreases m
  {
    var next, w', m' := PagesNext(virt, w, m);
    var p := PathOf(w);
    assert InRun(w, w, m) && p.up == up;
    var (t', ok) := MapPage(t, root, p, d, flags);
    var e, r := if ok then d + 1 else d, if ok then m' else m;
    var more := RangePage(t, roles, root, w, p, d, m, flags, t', ok, e, r);
    var d' := d + 1;
    var i := RangeUnfold(t, root, virt, d, m, flags, w, t', ok, next, d', m', u, j);
    if ok {
      TableThere(t, roles, root, w, d, m, flags, t');
      VacantStep(PageMap(t.mem, root), PageMap(t'.mem, root), w, m, Entry(d, flags.(present := true)));
      if m' > 0 {
        assert OneTable(w', m', up) by { assert forall v: nat :: InRun(v, w', m') ==> InRun(v, w, m); }
        RangeFar(t', more, root, next, w', d', m', flags, u, i, up);
      }
    }
  }

  lemma TableThere(t: Phys, roles: Roles, root: nat, w: nat, d: nat, m: nat, flags: Flags, t': Phys)
    requires Spare(t, roles, d, m) && m > 0 && IsRoot(roles, root) && UserPage(w)
    requires (t', true) == MapPage(t, root, PathOf(w), d, flags)
    ensures Missing(t'.mem, root, PathOf(w).up) == 0
  {
    PathOfPage(w);
    assert FreshData(t, roles, d);
    var up := PathOf(w).up;
    assert OnWay(up, up);
    WalkAfterMap(t, roles, root, PathOf(w), d, flags, t', up);
  }

  // ---------------------------------------------------------------------------------------
  // The stack
  // ---------------------------------------------------------------------------------------

  /** The run of frames can be had, and with it the tables for the first page, which is vacant. */
  ghost predicate StackStarts(s: Phys, root: nat) {
    && Pmm.Alloc(s.used, USTACK_PAGES).1 != 0 && STACK_PAGE !in PageMap(s.mem, root)
    && USTACK_PAGES + Missing(s.mem, root, PathOf(STACK_PAGE).up) <= Pmm.CountFree(s.used)
  }

  ghost predicate StackFits(s: Phys, root: nat) {
    StackStarts(s, root) && Vacant(PageMap(s.mem, root), STACK_PAGE, USTACK_PAGES)
  }

  /** The stack can be mapped as a whole, or not even its first page can. */
  ghost predicate Clean(s: Phys, root: nat) {
    StackStarts(s, root) ==> Vacant(PageMap(s.mem, root), STACK_PAGE, USTACK_PAGES)
  }

  lemma StackPlace()
    ensures Pages(USER_STACK_BASE, STACK_PAGE, USTACK_PAGES) && OneTable(STACK_PAGE, USTACK_PAGES, PathOf(STACK_PAGE).up)
  {
    forall v: nat | InRun(v, STACK_PAGE, USTACK_PAGES) ensures PathOf(v).up == PathOf(STACK_PAGE).up {
      assert v / 512 == STACK_PAGE / 512;
    }
  }

  /** The run of frames just allocated and cleared. */
  lemma RunSpare(s: Phys, roles: Roles, root: nat, a: Phys, k: nat, n: nat, b: Phys)
    requires Inv(s, roles) && IsRoot(roles, root) && (a, k) == AllocRun(s, n) && k != 0 && b == FreeFrames(a, k, n)
    ensures Spare(a, roles, k, n) && b.used == s.used && Inv(b, roles)
    ensures Pmm.CountFree(a.used) == Pmm.CountFree(s.used) - n
    ensures |b.mem| == |s.mem| && b.mem == a.mem && forall f: nat :: f < |s.mem| && s.used[f] ==> b.mem[f] == s.mem[f]
    ensures PageMap(b.mem, root) == PageMap(s.mem, root)
  {
    Pmm.AllocFirstFit(s.used, n);
    Pmm.AllocThenFree(s.used, n);
    forall f | f in roles && f < |s.mem| ensures a.mem[f] == s.mem[f] && (roles[f].depth < 4 || a.mem[f].Data?) {
      assert FrameOk(s.mem, roles, f);
    }
    DataWriteKeepsMaps(s.mem, a.mem, roles);
    SpareInv(a, roles, k, n);
  }

  /** What holds from a state on holds from one that differs in free frames only. */
  lemma Rebased(s: Phys, b: Phys, roles: Roles, t: Phys, after: Roles, root: nat, v: nat, ds: seq<nat>, flags: Flags)
    requires Held(s.used, roles) && Sound(s) && b.used == s.used
    requires |b.mem| == |s.mem| && PageMap(b.mem, root) == PageMap(s.mem, root)
    requires forall f: nat :: f < |s.mem| && s.used[f] ==> b.mem[f] == s.mem[f]
    requires Mapped(b, roles, t, after, root, v, ds, flags)
    ensures Mapped(s, roles, t, after, root, v, ds, flags)
  {
    forall f: nat ensures ElsewhereUsed(b, roles, root, f) <==> ElsewhereUsed(s, roles, root, f) {}
  }

  predicate GivesStack(s: Phys, root: nat, t: Phys, ok: bool) {
    (t, ok) == GiveStack(s, root)
  }

  lemma GiveStackSteps(s: Phys, root: nat, t: Phys, ok: bool) returns (a: Phys, k: nat, u: Phys, done: nat)
    requires GivesStack(s, root, t, ok)
    ensures (a, k) == AllocRun(s, USTACK_PAGES) && (k != 0 <==> Pmm.Alloc(s.used, USTACK_PAGES).1 != 0)
    ensures k == 0 ==> t == a && !ok
    ensures k != 0 ==> RangesTo(a, root, USER_STACK_BASE, k, USTACK_PAGES, STACK_FLAGS, u, done) && (ok <==> done == USTACK_PAGES)
    ensures k != 0 ==> t == if ok then u else FreeFrames(u, k, USTACK_PAGES)
  {
    var r := AllocRun(s, USTACK_PAGES);
    a, k := r.0, r.1;
    var q := MapRange(a, root, USER_STACK_BASE, k, USTACK_PAGES, STACK_FLAGS);
    u, done := q.0, q.1;
  }

  /** How far the mapping of the stack comes. */
  lemma StackFar(s: Phys, roles: Roles, root: nat, a: Phys, k: nat, b: Phys, u: Phys, done: nat)
    requires Inv(s, roles) && IsRoot(roles, root) && (a, k) == AllocRun(s, USTACK_PAGES)
    requires k != 0 && b == FreeFrames(a, k, USTACK_PAGES)
    requires RangesTo(a, root, USER_STACK_BASE, k, USTACK_PAGES, STACK_FLAGS, u, done)
    ensures done > 0 <==> StackStarts(s, root)
    ensures done == USTACK_PAGES <==> StackFits(s, root)
  {
    StackPlace();
    PathOfPage(STACK_PAGE);
    var up := PathOf(STACK_PAGE).up;
    RunSpare(s, roles, root, a, k, USTACK_PAGES, b);
    NeedsSame(s.mem, a.mem, roles, root, up);
    RangeFar(a, roles, root, USER_STACK_BASE, STACK_PAGE, k, USTACK_PAGES, STACK_FLAGS, u, done, up);
  }

  /** The pages mapped, with the rest of the run taken as free. */
  lemma StackMapped(s: Phys, roles: Roles, root: nat, a: Phys, k: nat, b: Phys, u: Phys, done: nat)
    returns (x: Phys, ds: seq<nat>, after: Roles, e: nat, r: nat)
    requires Inv(s, roles) && IsRoot(roles, root) && (a, k) == AllocRun(s, USTACK_PAGES)
    requires k != 0 && b == FreeFrames(a, k, USTACK_PAGES)
    requires RangesTo(a, root, USER_STACK_BASE, k, USTACK_PAGES, STACK_FLAGS, u, done)
    ensures 0 < k && e == k + done && e + r == k + USTACK_PAGES && x == FreeFrames(u, e, r)
    ensures |ds| == done && (forall i :: 0 <= i < done ==> ds[i] == k + i) && Mapped(s, roles, x, after, root, STACK_PAGE, ds, STACK_FLAGS)
  {
    StackPlace();
    RunSpare(s, roles, root, a, k, USTACK_PAGES, b);
    ds, after, e, r := RangeLaw(a, roles, root, USER_STACK_BASE, STACK_PAGE, k, USTACK_PAGES, STACK_FLAGS, u, done);
    x := FreeFrames(u, e, r);
    Rebased(s, b, roles, x, after, root, STACK_PAGE, ds, STACK_FLAGS);
  }

  lemma FreeNone(u: Phys, e: nat)
    ensures FreeFrames(u, e, 0) == u
  {
    assert Pmm.Free(u.used, e, 0) == u.used;
  }

  /** Frames freed while mapped: no account of the frames holds any more. */
  lemma FreedWhileMapped(u: Phys, root: nat, k: nat, n: nat, v: nat, r: Roles)
    requires n > 0 && 0 < k && UserPage(v) && v in PageMap(u.mem, root) && PageMap(u.mem, root)[v].frame == k
    ensures !(Inv(FreeFrames(u, k, n), r) && IsRoot(r, root))
  {
    var t := FreeFrames(u, k, n);
    PathOfPage(v);
    if Inv(t, r) && IsRoot(r, root) {
      LookupIsPlacement(t.mem, r, root, PathOf(v), k);
    }
  }

  /** The space is given a stack exactly if the run of frames and the missing tables can be had and all
      its pages are vacant; it then has four more pages, zeroed, on frames of their own. After a
      failure the account of frames still holds exactly if not even the first page could be mapped:
      then only tables were added, and otherwise a page stays mapped to a frame that is free. */
  lemma GiveStackLaw(s: Phys, roles: Roles, root: nat, t: Phys, ok: bool) returns (ds: seq<nat>, after: Roles)
    requires Inv(s, roles) && IsRoot(roles, root) && GivesStack(s, root, t, ok)
    ensures ok <==> StackFits(s, root)
    ensures |ds| == if ok then USTACK_PAGES else 0
    ensures ok || Clean(s, root) ==> Mapped(s, roles, t, after, root, STACK_PAGE, ds, STACK_FLAGS)
    ensures !Clean(s, root) ==> forall r: Roles :: !(Inv(t, r) && IsRoot(r, root))
  {
    var a, k, u, done := GiveStackSteps(s, root, t, ok);
    ds, after := [], roles;
    if k == 0 {
      Pmm.AllocFirstFit(s.used, USTACK_PAGES);
      MappedNone(s, roles, root, STACK_PAGE, STACK_FLAGS);
    } else {
      var b := FreeFrames(a, k, USTACK_PAGES);
      StackFar(s, roles, root, a, k, b, u, done);
      var x, es, more, e, r := StackMapped(s, roles, root, a, k, b, u, done);
      if done == 0 {
        after := more;
      } else if ok {
        FreeNone(u, e);
        ds, after := es, more;
      } else {
        var m := PageMap(s.mem, root);
        assert InRun(STACK_PAGE, STACK_PAGE, done);
        ExtendAt(m, STACK_PAGE, es, STACK_FLAGS, STACK_PAGE);
        forall r: Roles ensures !(Inv(t, r) && IsRoot(r, root)) { FreedWhileMapped(u, root, k, USTACK_PAGES, STACK_PAGE, r); }
      }
    }
  }

  /** Torn down after a failure, the space leaves nothing of itself or of the stack, half-way or not,
      though some frames are freed twice. */
  lemma GiveStackUndone(s: Phys, roles: Roles, root: nat, t: Phys, ok: bool, z: Phys, rest: Roles)
    requires Inv(s, roles) && IsRoot(roles, root) && GivesStack(s, root, t, ok)
    requires z == Destroy(t, root) && rest == Without(roles, root)
    ensures Inv(z, rest) && OnlySpace(s, roles, z, rest, root)
  {
    var a, k, u, done := GiveStackSteps(s, root, t, ok);
    if k == 0 {
      Pmm.AllocFirstFit(s.used, USTACK_PAGES);
      DestroyStep(s, roles, root);
    } else {
      var b := FreeFrames(a, k, USTACK_PAGES);
      var x, es, more, e, r := StackMapped(s, roles, root, a, k, b, u, done);
      if ok { FreeNone(u, e); }
      GivenFrames(u, k, e, r, done, es, x, t, ok);
      DestroyDirty(s, roles, root, x, more, t, STACK_PAGE, es, STACK_FLAGS, z, rest);
    }
  }

  lemma GivenFrames(u: Phys, k: nat, e: nat, r: nat, done: nat, ds: seq<nat>, x: Phys, t: Phys, ok: bool)
    requires 0 < k && e == k + done && e + r == k + USTACK_PAGES && x == FreeFrames(u, e, r) && |ds| == done
    requires forall i :: 0 <= i < done ==> ds[i] == k + i
    requires t == (if ok then u else FreeFrames(u, k, USTACK_PAGES)) && (ok ==> r == 0)
    ensures t.mem == x.mem && |t.used| == |x.used| && forall f: nat :: f < |x.used| && f !in ds ==> t.used[f] == x.used[f]
  {
    forall f: nat | k <= f < e ensures f in ds { assert ds[f - k] == f; }
  }

  lemma NewFramesOf(s: Phys, roles: Roles, root: nat, x: Phys, more: Roles, v: nat, ds: seq<nat>, flags: Flags, rest: Roles)
    requires Inv(s, roles) && Mapped(s, roles, x, more, root, v, ds, flags) && rest == Without(roles, root)
    ensures Without(more, root) == rest && forall f :: f in ds ==> Of(more, f, root)
    ensures forall f: nat :: f < |s.used| ==> (x.used[f] && !Of(more, f, root) <==> s.used[f] && !Of(roles, f, root))
    ensures forall f: nat :: f < |s.mem| && ElsewhereUsed(s, roles, root, f) ==> x.mem[f] == s.mem[f] && !Of(more, f, root)
    ensures 0 !in roles
  {
    forall f ensures f in Without(more, root) <==> f in rest {}
    assert 0 in roles ==> FrameOk(s.mem, roles, 0);
  }

  lemma DestroyDirty(s: Phys, roles: Roles, root: nat, x: Phys, more: Roles, t: Phys, v: nat, ds: seq<nat>,
                     flags: Flags, z: Phys, rest: Roles)
    requires Inv(s, roles) && IsRoot(roles, root) && Mapped(s, roles, x, more, root, v, ds, flags)
    requires t.mem == x.mem && |t.used| == |x.used| && forall f: nat :: f < |x.used| && f !in ds ==> t.used[f] == x.used[f]
    requires z == Destroy(t, root) && rest == Without(roles, root)
    ensures Inv(z, rest) && OnlySpace(s, roles, z, rest, root)
  {
    NewFramesOf(s, roles, root, x, more, v, ds, flags, rest);
    DestroyLaw(t, more, root);
    DestroyedDirty(s, roles, root, x, more, t, ds, z, rest);
  }

  lemma DestroyedDirty(s: Phys, roles: Roles, root: nat, x: Phys, more: Roles, t: Phys, ds: seq<nat>, z: Phys, rest: Roles)
    requires Sound(s) && Held(s.used, roles) && 0 !in roles && rest == Without(roles, root)
    requires |x.used| == |s.used| && |x.mem| == |s.mem| && t.mem == x.mem && |t.used| == |x.used|
    requires forall f: nat :: f < |x.used| && f !in ds ==> t.used[f] == x.used[f]
    requires forall f :: f in ds ==> Of(more, f, root)
    requires forall f: nat :: f < |s.used| ==> (x.used[f] && !Of(more, f, root) <==> s.used[f] && !Of(roles, f, root))
    requires forall f: nat :: f < |s.mem| && ElsewhereUsed(s, roles, root, f) ==> x.mem[f] == s.mem[f] && !Of(more, f, root)
    requires Tree(z.mem, rest) && |z.used| == |t.used| && |z.mem| == |t.mem|
    requires forall f: nat :: f < |t.used| ==> z.used[f] == (t.used[f] && !Of(more, f, root))
    requires forall f: nat :: f < |t.mem| && !Of(more, f, root) ==> z.mem[f] == t.mem[f]
    ensures Inv(z, rest) && OnlySpace(s, roles, z, rest, root)
  {
    forall f: nat | f < |s.used| ensures z.used[f] == (s.used[f] && !Of(roles, f, root)) {}
    assert s.used[0] && !Of(roles, 0, root);
  }
}

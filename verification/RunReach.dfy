/** User code reaches whatever is mapped for it: over runs of pages, stacks and whole lives of spaces. */
module RunReach {
  import opened Align
  import opened Paging
  import opened PageTree
  import opened PageMapLaws
  import opened Spaces
  import opened PageRuns
  import opened RunOps
  import opened StackOps
  import opened UserReach
  import Pmm

  lemma MapFreshOpen(s: Phys, roles: Roles, root: nat, v: nat, flags: Flags)
    requires Inv(s, roles) && IsRoot(roles, root) && UserPage(v) && flags.user && AllOpen(s.mem, root)
    ensures AllOpen(MapFresh(s, root, PathOf(v), flags).0.mem, root)
  {
    MapFreshInner(s, roles, root, v, flags, root);
    AddedOpen(s.mem, MapFresh(s, root, PathOf(v), flags).0.mem, root);
  }

  lemma UnmapFreeOpen(s: Phys, roles: Roles, root: nat, v: nat)
    requires Inv(s, roles) && IsRoot(roles, root) && UserPage(v) && AllOpen(s.mem, root)
    ensures AllOpen(UnmapFree(s, root, PathOf(v)).mem, root)
  {
    UnmapPageInner(s, roles, root, v, root);
    SameOpen(s.mem, UnmapPage(s, root, PathOf(v)).0.mem, root);
  }

  lemma {:induction false} MapRunOpen(s: Phys, roles: Roles, root: nat, virt: U64, v: nat, n: nat, flags: Flags, u: Phys, k: nat)
    requires Inv(s, roles) && IsRoot(roles, root) && Pages(virt, v, n) && MapsTo(s, root, virt, n, flags, u, k)
    requires flags.user && AllOpen(s.mem, root)
    ensures AllOpen(u.mem, root)
    decreases n
  {
    if n > 0 {
      var next, w, m := PagesNext(virt, v, n);
      var t, ok, d, r := FirstPage(s, roles, root, v, n, w, m, flags);
      var j := MapRunUnfold(s, root, virt, n, flags, v, t, ok, next, m, u, k);
      MapFreshOpen(s, roles, root, v, flags);
      if ok { MapRunOpen(t, r, root, next, w, m, flags, u, j); }
    }
  }

  lemma {:induction false} UnmapRunOpen(s: Phys, roles: Roles, root: nat, virt: U64, v: nat, n: nat, u: Phys)
    requires Inv(s, roles) && IsRoot(roles, root) && Pages(virt, v, n) && UnmapsTo(s, root, virt, n, u) && AllOpen(s.mem, root)
    ensures AllOpen(u.mem, root)
    decreases n
  {
    if n > 0 {
      var next, w, m := PagesNext(virt, v, n);
      var t, r := UnmapFreeUnmapped(s, roles, root, v);
      UnmapRunUnfold(s, root, virt, n, v, t, next, m, u);
      UnmapFreeOpen(s, roles, root, v);
      UnmapRunOpen(t, r, root, next, w, m, u);
    }
  }

  lemma {:induction false} RangeOpen(t: Phys, roles: Roles, root: nat, virt: U64, w: nat, d: nat, m: nat,
                                     flags: Flags, u: Phys, j: nat)
    requires Spare(t, roles, d, m) && IsRoot(roles, root) && Pages(virt, w, m) && RangesTo(t, root, virt, d, m, flags, u, j)
    requires flags.user && AllOpen(t.mem, root)
    ensures AllOpen(u.mem, root)
    decreases m
  {
    if m > 0 {
      var next, w', m' := PagesNext(virt, w, m);
      var (t', ok) := MapPage(t, root, PathOf(w), d, flags);
      var e, r := if ok then d + 1 else d, if ok then m' else m;
      var more := RangePage(t, roles, root, w, PathOf(w), d, m, flags, t', ok, e, r);
      var d' := d + 1;
      var i := RangeUnfold(t, root, virt, d, m, flags, w, t', ok, next, d', m', u, j);
      assert FreshData(t, roles, d);
      MapPageInner(t, roles, root, w, d, flags, root);
      AddedOpen(t.mem, t'.mem, root);
      if ok { RangeOpen(t', more, root, next, w', d', m', flags, u, i); }
    }
  }

  /** A stack that is given, or not, leaves the space open to user code. */
  lemma GiveStackOpen(s: Phys, roles: Roles, root: nat, t: Phys, ok: bool)
    requires Inv(s, roles) && IsRoot(roles, root) && GivesStack(s, root, t, ok) && AllOpen(s.mem, root)
    ensures AllOpen(t.mem, root)
  {
    var a, k, u, done := GiveStackSteps(s, root, t, ok);
    if k != 0 {
      StackPlace();
      var b := FreeFrames(a, k, USTACK_PAGES);
      RunSpare(s, roles, root, a, k, USTACK_PAGES, b);
      DataInner(s.mem, roles, a.mem, root);
      SameOpen(s.mem, a.mem, root);
      RangeOpen(a, roles, root, USER_STACK_BASE, STACK_PAGE, k, USTACK_PAGES, STACK_FLAGS, u, done);
    } else {
      Pmm.AllocFirstFit(s.used, USTACK_PAGES);
    }
  }
}

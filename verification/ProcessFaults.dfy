/** A run of a process from boot that ends with a growth of the heap that stops half-way. */
module ProcessFaults {
  import opened Align
  import opened Paging
  import opened PageTree
  import opened TableNeeds
  import opened BreakLaws
  import opened ProcessRuns
  import opened FamilyRuns
  import ThreadRuns
  import SpaceLife
  import Pmm
  import F = ThreadFaults

  /** The page at which the user region begins. */
  const USER_PAGE: nat := 0x800_0000

  /** A process whose heap begins with the user region and is empty, and which may grow to `pages` pages. */
  function Layouts(root: nat, pages: nat): Layout
    requires pages < 0x1000_0000
  {
    Layout(root, USER_PAGE * PAGE_SIZE, USER_PAGE + pages)
  }

  function NewProcess(s: Phys, pages: nat): Proc
    requires pages < 0x1000_0000
  {
    Proc(s, USER_PAGE * PAGE_SIZE, (USER_PAGE + pages) * PAGE_SIZE)
  }

  lemma Rounded(pages: nat, end: U64)
    requires pages < 0x1000_0000 && end == (USER_PAGE + pages) * PAGE_SIZE
    ensures PageUp(end) == USER_PAGE + pages && end != 0
  {
  }

  /** A fresh space of a machine with room for one page and its tables: a process that asks for one page
      more than there are frames gets some of them and not all. */
  lemma GrowthStopsHalfWay(s: Phys, roles: Roles, root: nat, a: nat, n: nat) returns (l: Layout, p: Proc, newEnd: U64)
    requires Inv(s, roles) && IsRoot(roles, root) && PageMap(s.mem, root) == map[]
    requires F.Roomy(s, a, n) && n >= 4 && |s.used| < 0xFFF_FFFF
    ensures p.phys == s && l.root == root && ProcessRuns.Sound(l, p, roles) && newEnd != 0 && l.Low() <= PageUp(newEnd) <= l.limit
    ensures !WholeOrNothing(l, p, newEnd)
  {
    var pages := |s.used| + 1;
    l, p := Layouts(root, pages), NewProcess(s, pages);
    newEnd := p.mmapBase;
    Rounded(pages, newEnd);
    Rounded(0, p.brkEnd);
    FirstFits(s, roles, root, a, n);
  }

  lemma FirstFits(s: Phys, roles: Roles, root: nat, a: nat, n: nat)
    requires Inv(s, roles) && IsRoot(roles, root) && PageMap(s.mem, root) == map[] && F.Roomy(s, a, n) && n >= 4
    ensures Enough(s, root, USER_PAGE, 1)
  {
    var up := PathOf(USER_PAGE).up;
    PathOfPage(USER_PAGE);
    F.MissingAtMost(s.mem, root, up);
    F.RoomyCount(s.used, a, n);
    NeedsShort(s.mem, root, up);
    assert NeedRun(s.mem, root, USER_PAGE + 1, 0) == {};
    assert NeedRun(s.mem, root, USER_PAGE, 1) == Needs(s.mem, root, up) + {};
  }

  /** From boot: the first space of a machine is one in which a process can ask for too much. */
  lemma FromBoot(vm: SpaceLife.Vm, kernel: nat, a: nat, n: nat) returns (l: Layout, p: Proc, roles: Roles, newEnd: U64)
    requires F.Bootable(vm, kernel, a, n) && n >= 5 && |vm.phys.used| < 0xFFF_FFFF
    ensures ThreadRuns.Allowed(ThreadRuns.Boot(vm, kernel), [ThreadRuns.NewSpace])
    ensures p.phys == ThreadRuns.Run(ThreadRuns.Boot(vm, kernel), [ThreadRuns.NewSpace]).s.vm.phys
    ensures ProcessRuns.Sound(l, p, roles) && newEnd != 0 && l.Low() <= PageUp(newEnd) <= l.limit && !WholeOrNothing(l, p, newEnd)
  {
    var w0 := ThreadRuns.Boot(vm, kernel);
    ThreadRuns.BootSafe(vm, kernel);
    var w, cr3, after := F.FirstSpace(w0, a, n);
    F.RunSnoc(w0, [], ThreadRuns.NewSpace);
    assert [] + [ThreadRuns.NewSpace] == [ThreadRuns.NewSpace];
    roles := after;
    l, p, newEnd := GrowthStopsHalfWay(w.s.vm.phys, roles, cr3, a + 1, n - 1);
  }

  // ---------------------------------------------------------------------------------------
  // A family
  // ---------------------------------------------------------------------------------------

  /** A process with an empty heap and room for one page forks: both follow the empty heap. */
  lemma JustForked(s: Phys, roles: Roles, root: nat, l: Layout, f: Family, f': Family)
    requires Inv(s, roles) && IsRoot(roles, root) && PageMap(s.mem, root) == map[] && l == Layouts(root, 1)
    requires f == Family(s, [Member(l.brkStart, (USER_PAGE + 1) * PAGE_SIZE)]) && f' == Perform(l, f, Forks(0))
    ensures Settled(l, f, roles) && Settled(l, f', roles) && |f'.members| == 2 && f'.members[1] == f'.members[0] == f.members[0]
    ensures f'.phys == s && HeapTop(l, f) == HeapTop(l, f') == Break(f', 0) == USER_PAGE
  {
    Rounded(0, l.brkStart);
    Rounded(1, f.members[0].mmapBase);
    assert FirstGap(MapOf(l, f), l.Low(), l.limit) == USER_PAGE;
    ForkKeeps(l, f, roles, 0, f');
  }

  /** Then one of them grows it by that page: the heap follows this break and not the other. */
  lemma ForkParts(s: Phys, roles: Roles, root: nat, a: nat, n: nat) returns (l: Layout, f: Family, grow: Act)
    requires Inv(s, roles) && IsRoot(roles, root) && PageMap(s.mem, root) == map[] && F.Roomy(s, a, n) && n >= 4
    ensures f.phys == s && |f.members| == 1 && Settled(l, f, roles) && Follows(l, f, 0) && Fits(l, f, Forks(0))
    ensures var f' := Perform(l, f, Forks(0));
            Fits(l, f', grow) && var f'' := Perform(l, f', grow); |f''.members| == 2 && Follows(l, f'', 0) && !Follows(l, f'', 1)
  {
    l := Layouts(root, 1);
    var end := (USER_PAGE + 1) * PAGE_SIZE;
    f, grow := Family(s, [Member(l.brkStart, end)]), Calls(0, Brk(end));
    var f' := Perform(l, f, Forks(0));
    JustForked(s, roles, root, l, f, f');
    FirstFits(s, roles, root, a, n);
    Rounded(1, end);
    RefusedIs(l, f', 0, end, 1);
    var f'' := Perform(l, f', grow);
    var after := GrownPast(l, f', roles, 0, end, f'');
    FollowsIs(l, MapOf(l, f''), Break(f'', 0));
    FollowsIs(l, MapOf(l, f''), Break(f'', 1));
  }
}

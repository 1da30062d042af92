/** The two system calls that change a process's pages, `vmm_user_set_brk` and
    `mmap_map_anonymous`, on values; when each succeeds and what it leaves behind. */
module ProcessOps {
  import opened Basics
  import opened Align
  import opened Paging
  import opened PageTree
  import opened PageRuns
  import opened TableNeeds
  import opened RunOps
  import opened BreakLaws

  /** The first address an anonymous mapping is put at. */
  function MmapStart(mmapBase: U64, addr: U64): (start: U64)
    ensures start % PAGE_SIZE == 0
  {
    if addr != 0 then AlignDown(addr) else AlignUp(mmapBase)
  }

  function MmapPages(len: U64): nat {
    AlignUp(len) / PAGE_SIZE
  }

  /** The permissions asked for with `prot`: bit 1 to write, bit 2 to execute. */
  function MmapFlags(prot: int): Flags {
    NO_FLAGS.(present := true, user := true, writable := prot / 2 % 2 == 1, noExec := prot / 4 % 2 == 0)
  }

  /** Memory, the base returned, and the mapping base after the call. */
  function Mmap(s: Phys, root: nat, mmapBase: U64, addr: U64, len: U64, flags: Flags): (Phys, Option<U64>, U64) {
    if len == 0 then (s, None, mmapBase) else
    var start, n := MmapStart(mmapBase, addr), MmapPages(len);
    var (t, k) := MapRun(s, root, start, n, flags);
    if k != n then (UnmapRun(t, root, start, k), None, mmapBase)
    else (t, Some(start), if addr == 0 then Add64(start, AlignUp(len)) else mmapBase)
  }

  /** Memory after the call, and whether the break moved. */
  function SetBrk(s: Phys, root: nat, brkStart: U64, brkEnd: U64, newEnd: U64): (Phys, bool) {
    var cur, end := AlignUp(brkEnd), BreakTarget(brkStart, newEnd);
    if end > cur then
      var (t, k) := MapRun(s, root, cur, end / PAGE_SIZE - cur / PAGE_SIZE, HEAP_FLAGS);
      (t, k == end / PAGE_SIZE - cur / PAGE_SIZE)
    else
      (UnmapRun(s, root, end, cur / PAGE_SIZE - end / PAGE_SIZE), true)
  }

  predicate MmapsTo(s: Phys, root: nat, mmapBase: U64, addr: U64, len: U64, flags: Flags, t: Phys, base: Option<U64>, next: U64) {
    (t, base, next) == Mmap(s, root, mmapBase, addr, len, flags)
  }

  lemma UndoLaw(s: Phys, roles: Roles, root: nat, start: U64, v: nat, n: nat, flags: Flags, u: Phys, k: nat,
                ds: seq<nat>, r: Roles)
    returns (t: Phys, after: Roles)
    requires Inv(s, roles) && IsRoot(roles, root) && Pages(start, v, n) && k <= n && Ran(s, roles, root, v, n, flags, u, k, ds, r)
    ensures t == UnmapRun(u, root, start, k) && Mapped(s, roles, t, after, root, 0, [], flags)
  {
    t := UnmapRun(u, root, start, k);
    after := UnmapRunLaw(u, r, root, start, v, k, t);
    Undone(s, roles, u, r, t, after, root, v, ds, flags);
  }

  /** `mmap_map_anonymous` succeeds exactly when the pages asked for are vacant and there are frames
      for them and for their missing tables. It then adds exactly those pages, zeroed, on frames of
      their own that were free; otherwise the plain map is what it was and of all frames only new
      tables of this space stay allocated. */
  lemma MmapLaw(s: Phys, roles: Roles, root: nat, mmapBase: U64, addr: U64, len: U64, flags: Flags, v: nat, n: nat,
                t: Phys, base: Option<U64>, next: U64) returns (ds: seq<nat>, after: Roles)
    requires Inv(s, roles) && IsRoot(roles, root) && len != 0
    requires n == MmapPages(len) && Pages(MmapStart(mmapBase, addr), v, n)
    requires MmapsTo(s, root, mmapBase, addr, len, flags, t, base, next)
    ensures base.Some? <==> Enough(s, root, v, n)
    ensures base.Some? ==> |ds| == n && Mapped(s, roles, t, after, root, v, ds, flags)
    ensures base.None? ==> Mapped(s, roles, t, after, root, 0, [], flags)
  {
    var start := MmapStart(mmapBase, addr);
    var (u, k) := MapRun(s, root, start, n, flags);
    ds, after := MapRunLaw(s, roles, root, start, v, n, flags, u, k);
    if k != n {
      var t';
      t', after := UndoLaw(s, roles, root, start, v, n, flags, u, k, ds, after);
    }
  }

  lemma BoundPages(a: U64, b: U64)
    requires a % PAGE_SIZE == 0 && b % PAGE_SIZE == 0 && UserBound(a) && UserBound(b)
    ensures b > a <==> b / PAGE_SIZE > a / PAGE_SIZE
    ensures b > a ==> Pages(a, a / PAGE_SIZE, b / PAGE_SIZE - a / PAGE_SIZE)
    ensures b <= a ==> Pages(b, b / PAGE_SIZE, a / PAGE_SIZE - b / PAGE_SIZE)
  {
  }

  predicate BrksTo(s: Phys, root: nat, brkStart: U64, brkEnd: U64, newEnd: U64, t: Phys, ok: bool) {
    (t, ok) == SetBrk(s, root, brkStart, brkEnd, newEnd)
  }

  lemma SetBrkRuns(s: Phys, root: nat, brkStart: U64, brkEnd: U64, newEnd: U64, a: U64, b: U64, t: Phys,
                   ok: bool) returns (n: nat, k: nat)
    requires a == AlignUp(brkEnd) && b == BreakTarget(brkStart, newEnd) && UserBound(a) && UserBound(b)
    requires BrksTo(s, root, brkStart, brkEnd, newEnd, t, ok)
    ensures b / PAGE_SIZE > a / PAGE_SIZE ==>
              && n == b / PAGE_SIZE - a / PAGE_SIZE && Pages(a, a / PAGE_SIZE, n)
              && MapsTo(s, root, a, n, HEAP_FLAGS, t, k) && k <= n && (ok <==> k == n)
    ensures b / PAGE_SIZE <= a / PAGE_SIZE ==>
              n == a / PAGE_SIZE - b / PAGE_SIZE && Pages(b, b / PAGE_SIZE, n) && UnmapsTo(s, root, b, n, t) && ok
  {
    BoundPages(a, b);
    n, k := if b > a then b / PAGE_SIZE - a / PAGE_SIZE else a / PAGE_SIZE - b / PAGE_SIZE, 0;
    if b > a { k := MapRun(s, root, a, n, HEAP_FLAGS).1; }
  }

  /** `vmm_user_set_brk` moves the break exactly when the heap need not grow, or the `n` pages to add are
      vacant and there are frames for them and for their missing tables. A growth maps anything at all
      exactly if its first page can be had. */
  lemma BrkLaw(s: Phys, roles: Roles, root: nat, brkStart: U64, brkEnd: U64, newEnd: U64, cur: nat, end: nat, t: Phys, ok: bool)
    returns (n: nat, ds: seq<nat>, after: Roles)
    requires Inv(s, roles) && IsRoot(roles, root) && UserBound(AlignUp(brkEnd)) && UserBound(BreakTarget(brkStart, newEnd))
    requires cur == PageUp(brkEnd) && end == BreakTarget(brkStart, newEnd) / PAGE_SIZE
    requires BrksTo(s, root, brkStart, brkEnd, newEnd, t, ok)
    ensures n == (if end > cur then end - cur else cur - end) && Moved(cur, end, n, s, roles, t, after, root, ds)
    ensures end <= cur ==> ok
    ensures end > cur ==> (ok <==> Enough(s, root, cur, n)) && (ok <==> |ds| == n) && |ds| <= n && (ds != [] <==> Enough(s, root, cur, 1))
  {
    var a, b := AlignUp(brkEnd), BreakTarget(brkStart, newEnd);
    var k;
    n, k := SetBrkRuns(s, root, brkStart, brkEnd, newEnd, a, b, t, ok);
    if end > cur {
      FirstHad(s, roles, root, a, cur, n, HEAP_FLAGS, t, k);
      ds, after := MapRunLaw(s, roles, root, a, cur, n, HEAP_FLAGS, t, k);
    } else {
      ds := [];
      after := UnmapRunLaw(s, roles, root, b, end, n, t);
    }
  }

  /** The same on the plain map of the pages. */
  ghost predicate BrkDone(s: Phys, root: nat, brkStart: U64, brkEnd: U64, newEnd: U64, n: nat, t: Phys, ok: bool,
                          ds: seq<nat>, after: Roles) {
    && Inv(t, after) && IsRoot(after, root)
    && BrkEffect(brkStart, brkEnd, newEnd, PageMap(s.mem, root), PageMap(t.mem, root), ds) && (ok <==> Complete(brkStart, brkEnd, newEnd, ds))
    && var cur, end := PageUp(brkEnd), BreakTarget(brkStart, newEnd) / PAGE_SIZE;
       end > cur ==> n == end - cur && |ds| <= n && (ok <==> Enough(s, root, cur, n)) && (ds != [] <==> Enough(s, root, cur, 1))
  }

  lemma BrkOnMaps(s: Phys, roles: Roles, root: nat, brkStart: U64, brkEnd: U64, newEnd: U64, t: Phys, ok: bool)
    returns (n: nat, ds: seq<nat>, after: Roles)
    requires Inv(s, roles) && IsRoot(roles, root) && UserBound(AlignUp(brkEnd)) && UserBound(BreakTarget(brkStart, newEnd))
    requires BrksTo(s, root, brkStart, brkEnd, newEnd, t, ok)
    ensures BrkDone(s, root, brkStart, brkEnd, newEnd, n, t, ok, ds, after)
  {
    var cur, end := PageUp(brkEnd), BreakTarget(brkStart, newEnd) / PAGE_SIZE;
    n, ds, after := BrkLaw(s, roles, root, brkStart, brkEnd, newEnd, cur, end, t, ok);
    MovedEffect(brkStart, brkEnd, newEnd, cur, end, n, s, roles, t, after, root, ds);
  }

  /** Where an anonymous mapping is put: with an address, from the beginning of the page that holds it; without
      one, from the first page boundary at or behind the base. */
  lemma MmapPlace(mmapBase: U64, addr: U64)
    ensures MmapStart(mmapBase, addr) % 4096 == 0
    ensures addr != 0 ==> MmapStart(mmapBase, addr) <= addr < MmapStart(mmapBase, addr) + 4096
    ensures addr == 0 && mmapBase + 4096 <= TWO64 ==> mmapBase <= MmapStart(mmapBase, addr) < mmapBase + 4096
  {
  }

  /** A mapping is of as few pages as hold the length, exactly if the length, rounded up, does not wrap at 64
      bits; if it does, the mapping is of no page at all. */
  lemma MmapLength(len: U64)
    ensures len + 4095 < TWO64 <==> len <= MmapPages(len) * 4096
    ensures len + 4095 < TWO64 ==> MmapPages(len) * 4096 < len + 4096
    ensures len + 4095 >= TWO64 ==> MmapPages(len) == 0
  {
  }
}

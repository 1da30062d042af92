/** When a run of pages can be mapped: the pages must be vacant, and there must be frames for them
    and for the tables that are missing on the way to them. */
module TableNeeds {
  import opened Paging
  import opened PageTree
  import opened PageMapLaws
  import opened Spaces
  import opened PageRuns
  import Pmm

  /** The places of the tables missing on the way to `p`. */
  function Needs(mem: seq<Frame>, root: nat, p: Path): set<Path> {
    if p.Top? || Walk(mem, root, p).Some? then {} else {p} + Needs(mem, root, p.up)
  }

  /** The places of the tables missing for the `n` pages from `v` on. */
  function NeedRun(mem: seq<Frame>, root: nat, v: nat, n: nat): set<Path>
    decreases n
  {
    if n == 0 then {} else Needs(mem, root, PathOf(v).up) + NeedRun(mem, root, v + 1, n - 1)
  }

  lemma {:induction false} NeedsShort(mem: seq<Frame>, root: nat, p: Path)
    ensures |Needs(mem, root, p)| == Missing(mem, root, p)
    ensures forall q :: q in Needs(mem, root, p) ==> Len(q) <= Len(p)
  {
    if p.Sub? && Walk(mem, root, p).None? { NeedsShort(mem, root, p.up); }
  }

  lemma {:induction false} WalkOnWay(mem: seq<Frame>, root: nat, p: Path, q: Path)
    requires Walk(mem, root, p).Some? && OnWay(q, p)
    ensures Walk(mem, root, q).Some?
  {
    if q != p { WalkOnWay(mem, root, p.up, q); }
  }

  /** After a page is mapped, the tables there are those there were and those on the way to it. */
  lemma WalkAfterMap(s: Phys, roles: Roles, root: nat, p: Path, d: nat, flags: Flags, t: Phys, q: Path)
    requires Inv(s, roles) && IsRoot(roles, root) && UserPath(p) && Len(p) == 4 && FreshData(s, roles, d)
    requires (t, true) == MapPage(s, root, p, d, flags) && UserPath(q) && Len(q) <= 3
    ensures Walk(t.mem, root, q).Some? <==> Walk(s.mem, root, q).Some? || OnWay(q, p.up)
  {
    var grown := MapPageStep(s, roles, root, p, d, flags);
    assert FrameOk(t.mem, grown, d);
    WalkUp(t.mem, grown, d);
    if OnWay(q, p.up) { WalkOnWay(t.mem, root, p.up, q); }
    WalkDown(s.mem, roles, root, q);
    WalkDown(t.mem, grown, root, q);
    if Walk(s.mem, root, q).Some? { WalkIsPlacement(t.mem, grown, root, q, Walk(s.mem, root, q).value); }
    if Walk(t.mem, root, q).Some? { WalkIsPlacement(s.mem, roles, root, q, Walk(t.mem, root, q).value); }
  }

  /** Tables placed alike are walked alike. */
  lemma SameRolesSameWalk(m: seq<Frame>, m': seq<Frame>, roles: Roles, root: nat, q: Path)
    requires Tree(m, roles) && Tree(m', roles) && IsRoot(roles, root) && UserPath(q) && Len(q) <= 4
    ensures Walk(m, root, q) == Walk(m', root, q)
  {
    WalkDown(m, roles, root, q);
    WalkDown(m', roles, root, q);
    if Walk(m, root, q).Some? { WalkIsPlacement(m', roles, root, q, Walk(m, root, q).value); }
    if Walk(m', root, q).Some? { WalkIsPlacement(m, roles, root, q, Walk(m', root, q).value); }
  }

  /** From memory `m` to memory `m'` the tables on the way to `p` were added. */
  ghost predicate Filled(m: seq<Frame>, m': seq<Frame>, root: nat, p: Path) {
    forall q :: UserPath(q) && Len(q) <= 3 ==> (Walk(m', root, q).Some? <==> Walk(m, root, q).Some? || OnWay(q, p))
  }

  lemma {:induction false} NeedsOnWay(mem: seq<Frame>, root: nat, p: Path, q: Path)
    ensures q in Needs(mem, root, p) <==> OnWay(q, p) && Walk(mem, root, q).None?
  {
    if p.Sub? {
      NeedsOnWay(mem, root, p.up, q);
      if OnWay(q, p) && Walk(mem, root, p).Some? { WalkOnWay(mem, root, p, q); }
    }
  }

  lemma {:induction false} OnWayUser(q: Path, p: Path)
    requires OnWay(q, p) && UserPath(p)
    ensures UserPath(q) && Len(q) <= Len(p)
  {
    if q != p { OnWayUser(q, p.up); }
  }

  /** What is still missing on the way to `r` once the way to `p` is filled. */
  lemma NeedsFilled(m: seq<Frame>, m': seq<Frame>, root: nat, p: Path, r: Path)
    requires Filled(m, m', root, p) && UserPath(r) && Len(r) <= 3
    ensures Needs(m', root, r) == Needs(m, root, r) - Needs(m, root, p)
  {
    forall q ensures q in Needs(m', root, r) <==> q in Needs(m, root, r) && q !in Needs(m, root, p) {
      NeedsOnWay(m', root, r, q);
      NeedsOnWay(m, root, r, q);
      NeedsOnWay(m, root, p, q);
      if OnWay(q, r) { OnWayUser(q, r); }
    }
  }

  lemma {:induction false} NeedRunFilled(m: seq<Frame>, m': seq<Frame>, root: nat, p: Path, v: nat, n: nat)
    requires Filled(m, m', root, p) && UserRun(v, n)
    ensures NeedRun(m', root, v, n) == NeedRun(m, root, v, n) - Needs(m, root, p)
    decreases n
  {
    if n > 0 {
      PathOfPage(v);
      NeedsFilled(m, m', root, p, PathOf(v).up);
      NeedRunFilled(m, m', root, p, v + 1, n - 1);
    }
  }

  lemma {:induction false} NeedsSame(m: seq<Frame>, m': seq<Frame>, roles: Roles, root: nat, p: Path)
    requires Tree(m, roles) && Tree(m', roles) && IsRoot(roles, root) && UserPath(p) && Len(p) <= 3
    ensures Needs(m', root, p) == Needs(m, root, p) && Missing(m', root, p) == Missing(m, root, p)
  {
    SameRolesSameWalk(m, m', roles, root, p);
    if p.Sub? { NeedsSame(m, m', roles, root, p.up); }
  }

  // ---------------------------------------------------------------------------------------
  // One page
  // ---------------------------------------------------------------------------------------

  lemma MapPageCount(s: Phys, roles: Roles, root: nat, p: Path, d: nat, flags: Flags, t: Phys)
    requires Inv(s, roles) && IsRoot(roles, root) && UserPath(p) && Len(p) == 4 && (t, true) == MapPage(s, root, p, d, flags)
    ensures Pmm.CountFree(t.used) == Pmm.CountFree(s.used) - Missing(s.mem, root, p.up)
  {
    EnsureCount(s, roles, root, p.up, TableFlags(flags.user));
  }

  /** A page can be had on a fresh frame exactly when it is vacant and there are frames for it and for
      the tables on the way to it; then so many frames are taken and those tables are there. */
  lemma MapFreshExact(s: Phys, roles: Roles, root: nat, v: nat, p: Path, flags: Flags, t: Phys, ok: bool)
    requires Inv(s, roles) && IsRoot(roles, root) && UserPage(v) && p == PathOf(v) && (t, ok) == MapFresh(s, root, p, flags)
    ensures ok <==> v !in PageMap(s.mem, root) && 1 + Missing(s.mem, root, p.up) <= Pmm.CountFree(s.used)
    ensures ok ==> Filled(s.mem, t.mem, root, p.up) && Pmm.CountFree(t.used) == Pmm.CountFree(s.used) - 1 - Missing(s.mem, root, p.up)
  {
    PathOfPage(v);
    AllocPageStep(s, roles);
    var (s1, d) := AllocFrame(s, ZeroPage());
    NeedsSame(s.mem, s1.mem, roles, root, p.up);
    assert v in PageMap(s.mem, root) <==> v in PageMap(s1.mem, root);
    if d != 0 {
      MapPageOutcome(s1, roles, root, p, d, flags);
      if ok {
        MapPageCount(s1, roles, root, p, d, flags, t);
        forall q | UserPath(q) && Len(q) <= 3 ensures Walk(t.mem, root, q).Some? <==> Walk(s.mem, root, q).Some? || OnWay(q, p.up) {
          WalkAfterMap(s1, roles, root, p, d, flags, t, q);
          SameRolesSameWalk(s.mem, s1.mem, roles, root, q);
        }
      }
    }
  }

  // ---------------------------------------------------------------------------------------
  // A run of pages
  // ---------------------------------------------------------------------------------------

  /** The `n` pages from `v` on are vacant, and there are frames for them and their missing tables. */
  ghost predicate Enough(s: Phys, root: nat, v: nat, n: nat) {
    EnoughOf(PageMap(s.mem, root), v, n, NeedRun(s.mem, root, v, n), Pmm.CountFree(s.used))
  }

  lemma VacantStep(m: map<nat, Entry>, m': map<nat, Entry>, v: nat, n: nat, e: Entry)
    requires n > 0 && m' == m[v := e]
    ensures Vacant(m, v, n) <==> v !in m && Vacant(m', v + 1, n - 1)
  {
    if Vacant(m, v, n) {
      assert InRun(v, v, n);
      forall w: nat | InRun(w, v + 1, n - 1) ensures w !in m' { assert InRun(w, v, n); }
    }
    if v !in m && Vacant(m', v + 1, n - 1) {
      forall w: nat | InRun(w, v, n) ensures w !in m { assert w == v || InRun(w, v + 1, n - 1); }
    }
  }

  lemma SetSplit<T>(a: set<T>, b: set<T>)
    ensures |a + b| == |a| + |b - a|
  {
    assert a + b == a + (b - a);
  }

  lemma EnoughNone(s: Phys, root: nat, v: nat)
    ensures Enough(s, root, v, 0)
  {
  }

  ghost predicate EnoughOf(m: map<nat, Entry>, v: nat, n: nat, needs: set<Path>, free: nat) {
    Vacant(m, v, n) && n + |needs| <= free
  }

  /** The first page takes its own tables away from what the others need. */
  lemma EnoughGlue(m: map<nat, Entry>, m': map<nat, Entry>, v: nat, n: nat, w: nat, k: nat, a: set<Path>,
                   b: set<Path>, free: nat, free': nat,
                   ok: bool, e: Entry)
    requires w == v + 1 && n == k + 1 && (ok <==> v !in m && 1 + |a| <= free)
    requires ok ==> m' == m[v := e] && free' == free - 1 - |a|
    ensures ok ==> (EnoughOf(m, v, n, a + b, free) <==> EnoughOf(m', w, k, b - a, free'))
    ensures !ok ==> !EnoughOf(m, v, n, a + b, free)
  {
    SetSplit(a, b);
    assert InRun(v, v, n);
    if ok { VacantStep(m, m', v, n, e); }
  }

  lemma NeedRunUnfold(mem: seq<Frame>, root: nat, v: nat, n: nat, w: nat, k: nat, p: Path, a: set<Path>, b: set<Path>)
    requires w == v + 1 && n == k + 1 && p == PathOf(v) && a == Needs(mem, root, p.up) && b == NeedRun(mem, root, w, k)
    ensures NeedRun(mem, root, v, n) == a + b
  {
  }

  /** Whether a run can be had is decided page by page. */
  lemma EnoughStep(s: Phys, roles: Roles, root: nat, v: nat, n: nat, w: nat, k: nat, p: Path, flags: Flags, t: Phys, ok: bool)
    requires Inv(s, roles) && IsRoot(roles, root) && w == v + 1 && n == k + 1 && UserRun(v, n) && p == PathOf(v)
    requires (t, ok) == MapFresh(s, root, p, flags)
    ensures ok ==> (Enough(s, root, v, n) <==> Enough(t, root, w, k))
    ensures !ok ==> !Enough(s, root, v, n)
  {
    MapFreshExact(s, roles, root, v, p, flags, t, ok);
    var a, b := Needs(s.mem, root, p.up), NeedRun(s.mem, root, w, k);
    NeedsShort(s.mem, root, p.up);
    MapFreshLaw(s, roles, root, v, flags, root);
    NeedRunUnfold(s.mem, root, v, n, w, k, p, a, b);
    if ok { NeedRunFilled(s.mem, t.mem, root, p.up, w, k); }
    EnoughGlue(PageMap(s.mem, root), PageMap(t.mem, root), v, n, w, k, a, b,
               Pmm.CountFree(s.used), Pmm.CountFree(t.used), ok, Entry(AllocFrame(s, ZeroPage()).1, flags.(present := true)));
  }
}

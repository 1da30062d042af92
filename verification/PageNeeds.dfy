/** What it takes to map a list of pages, one after the other: vacant pages, and frames for them and for
    all the tables that are missing on the way to them. */
module PageNeeds {
  import opened Align
  import opened Paging
  import opened PageTree
  import opened Spaces
  import opened PageRuns
  import opened TableNeeds
  import opened RunOps
  import Pmm

  /** The places of the tables missing for the pages. */
  function NeedPages(mem: seq<Frame>, root: nat, ps: seq<nat>): set<Path> {
    if ps == [] then {} else Needs(mem, root, PathOf(ps[0]).up) + NeedPages(mem, root, ps[1..])
  }

  predicate AllUser(ps: seq<nat>) {
    forall i :: 0 <= i < |ps| ==> UserPage(ps[i])
  }

  predicate Distinct(ps: seq<nat>) {
    forall i, j :: 0 <= i < j < |ps| ==> ps[i] != ps[j]
  }

  /** The pages are all different and vacant, and there are frames for them and their missing tables. */
  ghost predicate EnoughPages(s: Phys, root: nat, ps: seq<nat>) {
    PagesOf(PageMap(s.mem, root).Keys, ps, NeedPages(s.mem, root, ps), Pmm.CountFree(s.used))
  }

  ghost predicate PagesOf(mapped: set<nat>, ps: seq<nat>, needs: set<Path>, free: nat) {
    Distinct(ps) && (forall i :: 0 <= i < |ps| ==> ps[i] !in mapped) && |ps| + |needs| <= free
  }

  lemma PagesNone(s: Phys, root: nat)
    ensures EnoughPages(s, root, [])
  {
  }

  lemma {:induction false} NeedPagesFilled(m: seq<Frame>, m': seq<Frame>, root: nat, p: Path, ps: seq<nat>)
    requires Filled(m, m', root, p) && UserPath(p) && Len(p) <= 3 && AllUser(ps)
    ensures NeedPages(m', root, ps) == NeedPages(m, root, ps) - Needs(m, root, p)
    decreases |ps|
  {
    if ps != [] {
      PathOfPage(ps[0]);
      NeedsFilled(m, m', root, p, PathOf(ps[0]).up);
      NeedPagesFilled(m, m', root, p, ps[1..]);
    }
  }

  lemma {:induction false} NeedPagesSame(m: seq<Frame>, m': seq<Frame>, roles: Roles, root: nat, ps: seq<nat>)
    requires Tree(m, roles) && Tree(m', roles) && IsRoot(roles, root) && AllUser(ps)
    ensures NeedPages(m', root, ps) == NeedPages(m, root, ps)
    decreases |ps|
  {
    if ps != [] {
      PathOfPage(ps[0]);
      NeedsSame(m, m', roles, root, PathOf(ps[0]).up);
      NeedPagesSame(m, m', roles, root, ps[1..]);
    }
  }

  /** The first page takes its own tables away from what the others need. */
  lemma PagesGlue(mapped: set<nat>, mapped': set<nat>, v: nat, ps: seq<nat>, a: set<Path>, b: set<Path>, free: nat,
                  free': nat, ok: bool)
    requires ok <==> v !in mapped && 1 + |a| <= free
    requires ok ==> mapped' == mapped + {v} && free' == free - 1 - |a|
    ensures ok ==> (PagesOf(mapped, [v] + ps, a + b, free) <==> PagesOf(mapped', ps, b - a, free'))
    ensures !ok ==> !PagesOf(mapped, [v] + ps, a + b, free)
  {
    SetSplit(a, b);
    var all := [v] + ps;
    assert all[0] == v && forall i :: 0 <= i < |ps| ==> all[i + 1] == ps[i];
    if ok && PagesOf(mapped', ps, b - a, free') {
      forall i, j | 0 <= i < j < |all| ensures all[i] != all[j] {
        assert all[j] == ps[j - 1];
        if i > 0 { assert all[i] == ps[i - 1]; }
      }
      forall i | 0 <= i < |all| ensures all[i] !in mapped { if i > 0 { assert all[i] == ps[i - 1]; } }
    }
  }

  /** Whether the pages can be had is decided page by page. */
  lemma PagesStep(s: Phys, roles: Roles, root: nat, v: nat, p: Path, ps: seq<nat>, flags: Flags, t: Phys, ok: bool)
    requires Inv(s, roles) && IsRoot(roles, root) && UserPage(v) && AllUser(ps)
    requires p == PathOf(v) && (t, ok) == MapFresh(s, root, p, flags)
    ensures ok ==> (EnoughPages(s, root, [v] + ps) <==> EnoughPages(t, root, ps))
    ensures !ok ==> !EnoughPages(s, root, [v] + ps)
  {
    PathOfPage(v);
    MapFreshExact(s, roles, root, v, p, flags, t, ok);
    var a, b := Needs(s.mem, root, p.up), NeedPages(s.mem, root, ps);
    NeedsShort(s.mem, root, p.up);
    MapFreshLaw(s, roles, root, v, flags, root);
    NeedPagesUnfold(s.mem, root, v, p, ps, a, b);
    if ok { NeedPagesFilled(s.mem, t.mem, root, p.up, ps); }
    PagesGlue(PageMap(s.mem, root).Keys, PageMap(t.mem, root).Keys, v, ps, a, b, Pmm.CountFree(s.used), Pmm.CountFree(t.used), ok);
  }

  lemma NeedPagesUnfold(mem: seq<Frame>, root: nat, v: nat, p: Path, ps: seq<nat>, a: set<Path>, b: set<Path>)
    requires p == PathOf(v) && a == Needs(mem, root, p.up) && b == NeedPages(mem, root, ps)
    ensures NeedPages(mem, root, [v] + ps) == a + b
  {
    assert ([v] + ps)[1..] == ps && ([v] + ps)[0] == v;
  }

  // ---------------------------------------------------------------------------------------
  // Runs of pages
  // ---------------------------------------------------------------------------------------

  function RunPages(v: nat, n: nat): (ps: seq<nat>)
    ensures |ps| == n && forall i :: 0 <= i < n ==> ps[i] == v + i
    decreases n
  {
    if n == 0 then [] else [v] + RunPages(v + 1, n - 1)
  }

  /** A run that is mapped as a whole takes what it needs away from what the pages after it need; one that
      is not was not to be had, whatever comes after it. */
  lemma {:induction false} MapRunPages(s: Phys, roles: Roles, root: nat, virt: U64, v: nat, n: nat, flags: Flags,
                                       u: Phys, k: nat, ps: seq<nat>)
    requires Inv(s, roles) && IsRoot(roles, root) && Pages(virt, v, n) && MapsTo(s, root, virt, n, flags, u, k) && AllUser(ps)
    ensures k == n ==> (EnoughPages(s, root, RunPages(v, n) + ps) <==> EnoughPages(u, root, ps))
    ensures k != n ==> !EnoughPages(s, root, RunPages(v, n) + ps)
    decreases n
  {
    if n == 0 {
      assert RunPages(v, n) + ps == ps;
    } else {
      var next, w, m := PagesNext(virt, v, n);
      var t, ok, d, r := MapFreshMapped(s, roles, root, v, flags);
      var j := MapRunUnfold(s, root, virt, n, flags, v, t, ok, next, m, u, k);
      var rest := RunSplit(v, n, w, m, ps);
      PagesStep(s, roles, root, v, PathOf(v), rest, flags, t, ok);
      if ok { MapRunPages(t, r, root, next, w, m, flags, u, j, ps); }
    }
  }

  lemma RunSplit(v: nat, n: nat, w: nat, m: nat, ps: seq<nat>) returns (rest: seq<nat>)
    requires w == v + 1 && n == m + 1 && UserRun(v, n) && AllUser(ps)
    ensures rest == RunPages(w, m) + ps && RunPages(v, n) + ps == [v] + rest && AllUser(rest)
  {
    rest := RunPages(w, m) + ps;
    forall i | 0 <= i < |rest| ensures UserPage(rest[i]) { if i >= m { assert rest[i] == ps[i - m]; } }
  }
}

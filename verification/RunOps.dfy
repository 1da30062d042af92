/** The loops over pages of `mmap_map_anonymous`, `vmm_user_set_brk` and the ELF loader, on values. */
module RunOps {
  import opened Align
  import opened Paging
  import opened PageTree
  import opened Spaces
  import opened PageRuns
  import opened TableNeeds

  /** Zeroed pages on fresh frames from `virt` on, up to the first that cannot be had; and how many. */
  function MapRun(s: Phys, root: nat, virt: U64, n: nat, flags: Flags): (r: (Phys, nat))
    ensures r.1 <= n
    decreases n, 1
  {
    if n == 0 then (s, 0)
    else MapRest(MapFresh(s, root, PathOf(PageOf(virt)), flags), root, Add64(virt, PAGE_SIZE), n - 1, flags)
  }

  function MapRest(first: (Phys, bool), root: nat, virt: U64, n: nat, flags: Flags): (r: (Phys, nat))
    ensures r.1 <= n + 1
    decreases n + 1, 0
  {
    if !first.1 then (first.0, 0) else
    var rest := MapRun(first.0, root, virt, n, flags);
    (rest.0, rest.1 + 1)
  }

  /** The pages from `virt` on given back. */
  function UnmapRun(s: Phys, root: nat, virt: U64, n: nat): Phys
    decreases n
  {
    if n == 0 then s else UnmapRun(UnmapFree(s, root, PathOf(PageOf(virt))), root, Add64(virt, PAGE_SIZE), n - 1)
  }

  lemma NextPage(virt: U64)
    requires virt % PAGE_SIZE == 0 && PageOf(virt) + 1 < 0x10_0000_0000
    ensures Add64(virt, PAGE_SIZE) % PAGE_SIZE == 0 && PageOf(Add64(virt, PAGE_SIZE)) == PageOf(virt) + 1
  {
    var p := virt / PAGE_SIZE;
    assert virt == p * PAGE_SIZE;
    assert Add64(virt, PAGE_SIZE) / PAGE_SIZE == (p + 1) % 0x10_0000_0000_0000;
  }

  predicate MapsTo(s: Phys, root: nat, virt: U64, n: nat, flags: Flags, u: Phys, k: nat) {
    (u, k) == MapRun(s, root, virt, n, flags)
  }

  predicate UnmapsTo(s: Phys, root: nat, virt: U64, n: nat, u: Phys) {
    u == UnmapRun(s, root, virt, n)
  }

  lemma MapRunUnfold(s: Phys, root: nat, virt: U64, n: nat, flags: Flags, v: nat, t: Phys, ok: bool, next: U64,
                     m: nat, u: Phys, k: nat)
    returns (j: nat)
    requires n == m + 1 && v == PageOf(virt) && (t, ok) == MapFresh(s, root, PathOf(v), flags) && next == Add64(virt, PAGE_SIZE)
    requires MapsTo(s, root, virt, n, flags, u, k)
    ensures ok ==> k == j + 1 && MapsTo(t, root, next, m, flags, u, j)
    ensures !ok ==> u == t && k == 0
  {
    assert MapRun(s, root, virt, n, flags) == MapRest((t, ok), root, next, n - 1, flags);
    j := if ok then k - 1 else 0;
  }

  lemma UnmapRunUnfold(s: Phys, root: nat, virt: U64, n: nat, v: nat, t: Phys, next: U64, m: nat, u: Phys)
    requires n == m + 1 && v == PageOf(virt) && t == UnmapFree(s, root, PathOf(v)) && next == Add64(virt, PAGE_SIZE)
    requires UnmapsTo(s, root, virt, n, u)
    ensures UnmapsTo(t, root, next, m, u)
  {
  }

  /** The run from `virt` on is the `n` user pages from `v` on. */
  predicate Pages(virt: U64, v: nat, n: nat) {
    virt % PAGE_SIZE == 0 && UserRun(v, n) && (n > 0 ==> v == PageOf(virt))
  }

  lemma PagesNext(virt: U64, v: nat, n: nat) returns (next: U64, w: nat, m: nat)
    requires Pages(virt, v, n) && n > 0
    ensures w == v + 1 && n == m + 1 && next == Add64(virt, PAGE_SIZE) && Pages(next, w, m) && UserPage(v) && PageOf(virt) == v
  {
    next, w, m := Add64(virt, PAGE_SIZE), v + 1, n - 1;
    if n > 1 { NextPage(virt); } else { NextBoundary(virt); }
  }

  lemma NextBoundary(virt: U64)
    requires virt % PAGE_SIZE == 0
    ensures Add64(virt, PAGE_SIZE) % PAGE_SIZE == 0
  {
  }

  /** `k` of the `n` pages from `v` on were had, on the frames `ds`; all exactly when there was enough. */
  ghost predicate Ran(s: Phys, roles: Roles, root: nat, v: nat, n: nat, flags: Flags, u: Phys, k: nat, ds: seq<nat>,
                      after: Roles) {
    |ds| == k && Mapped(s, roles, u, after, root, v, ds, flags) && (k == n <==> Enough(s, root, v, n))
  }

  /** The first page was mapped, and the rest can be had from here exactly if all could. */
  ghost predicate Began(s: Phys, roles: Roles, root: nat, v: nat, n: nat, flags: Flags, t: Phys, d: nat, r: Roles,
                        w: nat, m: nat) {
    && w == v + 1 && n == m + 1 && Inv(t, r) && IsRoot(r, root) && Mapped(s, roles, t, r, root, v, [d], flags)
    && (Enough(s, root, v, n) <==> Enough(t, root, w, m))
  }

  lemma FirstPage(s: Phys, roles: Roles, root: nat, v: nat, n: nat, w: nat, m: nat, flags: Flags) returns (t: Phys,
                  ok: bool, d: nat, r: Roles)
    requires Inv(s, roles) && IsRoot(roles, root) && w == v + 1 && n == m + 1 && UserRun(v, n)
    ensures (t, ok) == MapFresh(s, root, PathOf(v), flags) && Mapped(s, roles, t, r, root, v, if ok then [d] else [], flags)
    ensures ok ==> (Enough(s, root, v, n) <==> Enough(t, root, w, m))
    ensures !ok ==> !Enough(s, root, v, n)
  {
    t, ok, d, r := MapFreshMapped(s, roles, root, v, flags);
    EnoughStep(s, roles, root, v, n, w, m, PathOf(v), flags, t, ok);
  }

  lemma RanOn(s: Phys, roles: Roles, root: nat, v: nat, n: nat, flags: Flags, t: Phys, d: nat, r: Roles, w: nat, m: nat,
              u: Phys, j: nat, es: seq<nat>, after: Roles)
    requires Began(s, roles, root, v, n, flags, t, d, r, w, m) && Ran(t, r, root, w, m, flags, u, j, es, after)
    ensures Ran(s, roles, root, v, n, flags, u, j + 1, [d] + es, after)
  {
    MappedThen(s, roles, t, r, u, after, root, v, [d], es, flags);
  }

  lemma UnmappedOnce(s: Phys, r: Roles, t: Phys, r': Roles, u: Phys, r'': Roles, root: nat, v: nat, w: nat, n: nat, k: nat)
    requires Unmapped(s, r, t, r', root, v, 1) && w == v + 1 && n == k + 1 && Unmapped(t, r', u, r'', root, w, k)
    ensures Unmapped(s, r, u, r'', root, v, n)
  {
    UnmappedThen(s, r, t, r', u, r'', root, v, 1, k);
  }

  /** Mapping a run adds pages from its beginning on, and all of them exactly when they are vacant and
      there are frames for them and for the tables missing on the way to them. */
  lemma {:induction false} MapRunLaw(s: Phys, roles: Roles, root: nat, virt: U64, v: nat, n: nat, flags: Flags, u: Phys, k: nat)
    returns (ds: seq<nat>, after: Roles)
    requires Inv(s, roles) && IsRoot(roles, root) && Pages(virt, v, n) && MapsTo(s, root, virt, n, flags, u, k)
    ensures Ran(s, roles, root, v, n, flags, u, k, ds, after)
    decreases n
  {
    if n == 0 {
      MappedNone(s, roles, root, v, flags);
      EnoughNone(s, root, v);
      ds, after := [], roles;
    } else {
      var next, w, m := PagesNext(virt, v, n);
      var t, ok, d, r := FirstPage(s, roles, root, v, n, w, m, flags);
      var j := MapRunUnfold(s, root, virt, n, flags, v, t, ok, next, m, u, k);
      if ok {
        assert Began(s, roles, root, v, n, flags, t, d, r, w, m);
        var es;
        es, after := MapRunLaw(t, r, root, next, w, m, flags, u, j);
        ds := [d] + es;
        RanOn(s, roles, root, v, n, flags, t, d, r, w, m, u, j, es, after);
      } else {
        ds, after := [], r;
      }
    }
  }

  /** Anything at all is mapped exactly if the first page can be had. */
  lemma FirstHad(s: Phys, roles: Roles, root: nat, virt: U64, v: nat, n: nat, flags: Flags, u: Phys, k: nat)
    requires Inv(s, roles) && IsRoot(roles, root) && Pages(virt, v, n) && n > 0 && MapsTo(s, root, virt, n, flags, u, k)
    ensures k > 0 <==> Enough(s, root, v, 1)
  {
    var next, w, m := PagesNext(virt, v, n);
    var t, ok, d, r := FirstPage(s, roles, root, v, 1, w, 0, flags);
    if ok { EnoughNone(t, root, w); }
    var j := MapRunUnfold(s, root, virt, n, flags, v, t, ok, next, m, u, k);
  }

  lemma {:induction false} UnmapRunLaw(s: Phys, roles: Roles, root: nat, virt: U64, v: nat, n: nat,
                                       u: Phys) returns (after: Roles)
    requires Inv(s, roles) && IsRoot(roles, root) && Pages(virt, v, n) && UnmapsTo(s, root, virt, n, u)
    ensures Unmapped(s, roles, u, after, root, v, n)
    decreases n
  {
    if n == 0 {
      UnmappedNone(s, roles, root, v);
      after := roles;
    } else {
      var next, w, m := PagesNext(virt, v, n);
      var t, r := UnmapFreeUnmapped(s, roles, root, v);
      UnmapRunUnfold(s, root, virt, n, v, t, next, m, u);
      after := UnmapRunLaw(t, r, root, next, w, m, u);
      UnmappedOnce(s, roles, t, r, u, after, root, v, w, n, m);
    }
  }
}

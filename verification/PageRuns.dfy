/** Runs of consecutive pages mapped on fresh frames or given back: what the loops of `mmap`, `brk`
    and the ELF loader add up to. */
module PageRuns {
  import opened Paging
  import opened PageTree
  import opened PageMapLaws
  import opened Spaces
  import Pmm

  /** The `n` pages from `v` on lie outside the root's slot 0. */
  predicate UserRun(v: nat, n: nat) {
    n > 0 ==> 0x800_0000 <= v && v + n <= 0x10_0000_0000
  }

  predicate InRun(v: nat, first: nat, n: nat) {
    first <= v < first + n
  }

  // ---------------------------------------------------------------------------------------
  // Runs on plain maps
  // ---------------------------------------------------------------------------------------

  /** The plain map with pages from `first` on added, on the frames `ds`. */
  ghost function Extend(m: map<nat, Entry>, first: nat, ds: seq<nat>, flags: Flags): map<nat, Entry>
    decreases |ds|
  {
    if ds == [] then m else Extend(m[first := Entry(ds[0], flags.(present := true))], first + 1, ds[1..], flags)
  }

  ghost function Drop(m: map<nat, Entry>, first: nat, n: nat): map<nat, Entry>
    decreases n
  {
    if n == 0 then m else Drop(map v | v in m && v != first :: m[v], first + 1, n - 1)
  }

  /** No page of [first, first + k) is mapped. */
  ghost predicate Vacant(m: map<nat, Entry>, first: nat, k: nat) {
    forall v: nat :: InRun(v, first, k) ==> v !in m
  }

  lemma {:induction false} ExtendAt(m: map<nat, Entry>, first: nat, ds: seq<nat>, flags: Flags, v: nat)
    ensures var m' := Extend(m, first, ds, flags);
            && (v in m' <==> v in m || InRun(v, first, |ds|))
            && (InRun(v, first, |ds|) ==> m'[v] == Entry(ds[v - first], flags.(present := true)))
            && (!InRun(v, first, |ds|) && v in m ==> m'[v] == m[v])
    decreases |ds|
  {
    if ds != [] { ExtendAt(m[first := Entry(ds[0], flags.(present := true))], first + 1, ds[1..], flags, v); }
  }

  lemma {:induction false} DropAt(m: map<nat, Entry>, first: nat, n: nat, v: nat)
    ensures var m' := Drop(m, first, n);
            && (v in m' <==> v in m && !InRun(v, first, n))
            && (v in m' ==> m'[v] == m[v])
    decreases n
  {
    if n > 0 { DropAt(map w | w in m && w != first :: m[w], first + 1, n - 1, v); }
  }

  /** Dropping what was added to vacant pages gives the map back. */
  lemma DropExtend(m: map<nat, Entry>, first: nat, ds: seq<nat>, flags: Flags)
    requires Vacant(m, first, |ds|)
    ensures Drop(Extend(m, first, ds, flags), first, |ds|) == m
  {
    forall v: nat ensures var u := Drop(Extend(m, first, ds, flags), first, |ds|); (v in u <==> v in m) && (v in m ==> u[v] == m[v]) {
      ExtendAt(m, first, ds, flags, v);
      DropAt(Extend(m, first, ds, flags), first, |ds|, v);
    }
  }

  // ---------------------------------------------------------------------------------------
  // What a run of mappings adds
  // ---------------------------------------------------------------------------------------

  /** The frames were free before, are all different, and hold zeroed pages. */
  ghost predicate Fresh(used: seq<bool>, mem: seq<Frame>, ds: seq<nat>) {
    && (forall i :: 0 <= i < |ds| ==> 0 < ds[i] < |used| && !used[ds[i]] && ds[i] < |mem| && mem[ds[i]] == ZeroPage())
    && (forall i, j :: 0 <= i < j < |ds| ==> ds[i] != ds[j])
  }

  /** `f` is a table, or the page at one of [first, first + k), of the space of `root`. */
  ghost predicate NewPlace(r: Role, root: nat, first: nat, k: nat) {
    r.root == root && (1 <= r.depth <= 3 || (r.depth == 4 && exists v: nat :: InRun(v, first, k) && r.path == PathOf(v)))
  }

  /** The tree grew by such places only, and exactly their frames were allocated. */
  ghost predicate GrewBy(s: Phys, roles: Roles, t: Phys, grown: Roles, root: nat, first: nat, k: nat) {
    && |t.used| == |s.used|
    && (forall f :: f in roles ==> f in grown && grown[f] == roles[f])
    && (forall f :: f in grown && f !in roles ==> NewPlace(grown[f], root, first, k) && f < |s.used| && !s.used[f])
    && (forall f: nat :: f < |s.used| ==> t.used[f] == (s.used[f] || f in grown))
    && (forall f :: f in roles && roles[f].depth == 4 && f < |s.mem| ==> f < |t.mem| && t.mem[f] == s.mem[f])
  }

  /** All that mapping a run of pages from `first` on comes to: the tree is kept, only this space
      changed, it gained exactly those pages, on fresh frames, and exactly the frames of these
      pages and of the tables for them were allocated. */
  ghost predicate Mapped(s: Phys, roles: Roles, t: Phys, grown: Roles, root: nat, first: nat, ds: seq<nat>, flags: Flags) {
    && Inv(t, grown) && IsRoot(grown, root)
    && OnlySpace(s, roles, t, grown, root)
    && GrewBy(s, roles, t, grown, root, first, |ds|)
    && PageMap(t.mem, root) == Extend(PageMap(s.mem, root), first, ds, flags)
    && Vacant(PageMap(s.mem, root), first, |ds|)
    && Fresh(s.used, t.mem, ds)
    && (forall i :: 0 <= i < |ds| ==> ds[i] in grown && grown[ds[i]].depth == 4)
  }

  lemma MappedNone(s: Phys, roles: Roles, root: nat, first: nat, flags: Flags)
    requires Inv(s, roles) && IsRoot(roles, root)
    ensures Mapped(s, roles, s, roles, root, first, [], flags)
  {
  }

  lemma GrewByTrans(s: Phys, r: Roles, t: Phys, r': Roles, u: Phys, r'': Roles, root: nat, first: nat, j: nat, k: nat)
    requires GrewBy(s, r, t, r', root, first, j) && GrewBy(t, r', u, r'', root, first + j, k) && |t.mem| == |s.mem|
    ensures GrewBy(s, r, u, r'', root, first, j + k)
  {
    forall f | f in r'' && f !in r ensures NewPlace(r''[f], root, first, j + k) {
      if f in r' { PlaceIn(r'[f], root, first, j, first, j + k); } else { PlaceIn(r''[f], root, first + j, k, first, j + k); }
    }
  }

  lemma PlaceIn(r: Role, root: nat, first: nat, k: nat, first': nat, k': nat)
    requires NewPlace(r, root, first, k) && first' <= first && first + k <= first' + k'
    ensures NewPlace(r, root, first', k')
  {
    if r.depth == 4 {
      var v: nat :| InRun(v, first, k) && r.path == PathOf(v);
      assert InRun(v, first', k');
    }
  }

  /** The frame of a mapped page is an allocated leaf of the tree. */
  lemma MappedIsPlaced(s: Phys, roles: Roles, root: nat, v: nat)
    requires Inv(s, roles) && IsRoot(roles, root) && v in PageMap(s.mem, root)
    ensures var d := PageMap(s.mem, root)[v].frame;
            d in roles && Placed(roles, root, PathOf(v), d) && roles[d].depth == 4 && 0 < d < |s.mem| && s.used[d] && s.mem[d].Data?
  {
    PathOfPage(v);
    var d := PageMap(s.mem, root)[v].frame;
    LookupIsPlacement(s.mem, roles, root, PathOf(v), d);
    assert FrameOk(s.mem, roles, d);
  }

  lemma {:induction false} ExtendAppend(m: map<nat, Entry>, first: nat, ds: seq<nat>, es: seq<nat>, flags: Flags)
    ensures Extend(m, first, ds + es, flags) == Extend(Extend(m, first, ds, flags), first + |ds|, es, flags)
    decreases |ds|
  {
    if ds == [] {
      assert ds + es == es;
    } else {
      assert (ds + es)[1..] == ds[1..] + es;
      ExtendAppend(m[first := Entry(ds[0], flags.(present := true))], first + 1, ds[1..], es, flags);
    }
  }

  lemma VacantAppend(m: map<nat, Entry>, first: nat, ds: seq<nat>, k: nat, flags: Flags)
    requires Vacant(m, first, |ds|) && Vacant(Extend(m, first, ds, flags), first + |ds|, k)
    ensures Vacant(m, first, |ds| + k)
  {
    forall v: nat | InRun(v, first, |ds| + k) ensures v !in m {
      ExtendAt(m, first, ds, flags, v);
      assert InRun(v, first, |ds|) || InRun(v, first + |ds|, k);
    }
  }

  lemma FreshAppend(used: seq<bool>, used1: seq<bool>, mem1: seq<Frame>, mem: seq<Frame>, ds: seq<nat>, es: seq<nat>)
    requires |used| == |used1| && forall f: nat :: f < |used| && used[f] ==> used1[f]
    requires Fresh(used, mem1, ds) && Fresh(used1, mem, es)
    requires forall i :: 0 <= i < |ds| ==> ds[i] < |used1| && used1[ds[i]] && ds[i] < |mem| && mem[ds[i]] == mem1[ds[i]]
    ensures Fresh(used, mem, ds + es)
  {
  }

  /** A run mapped, then another right after it. */
  lemma MappedThen(s: Phys, r: Roles, t: Phys, r': Roles, u: Phys, r'': Roles, root: nat, first: nat,
                   ds: seq<nat>, es: seq<nat>, flags: Flags)
    requires Mapped(s, r, t, r', root, first, ds, flags) && Mapped(t, r', u, r'', root, first + |ds|, es, flags)
    ensures Mapped(s, r, u, r'', root, first, ds + es, flags)
  {
    OnlySpaceTrans(s, r, t, r', u, r'', root);
    GrewByTrans(s, r, t, r', u, r'', root, first, |ds|, |es|);
    ExtendAppend(PageMap(s.mem, root), first, ds, es, flags);
    VacantAppend(PageMap(s.mem, root), first, ds, |es|, flags);
    FreshAppend(s.used, t.used, t.mem, u.mem, ds, es);
  }

  lemma GrewOne(s: Phys, roles: Roles, t: Phys, grown: Roles, root: nat, v: nat, ok: bool)
    requires |t.used| == |s.used| && |t.mem| == |s.mem|
    requires forall f :: f in roles ==> f in grown && grown[f] == roles[f]
    requires forall f :: f in roles && roles[f].depth == 4 && f < |s.mem| ==> t.mem[f] == s.mem[f]
    requires forall f :: f in grown && f !in roles ==>
               && f < |s.used| && !s.used[f]
               && grown[f].root == root && (1 <= grown[f].depth <= 3 || (ok && grown[f].depth == 4 && grown[f].path == PathOf(v)))
    requires forall f: nat :: f < |s.used| ==> t.used[f] == (s.used[f] || f in grown)
    ensures GrewBy(s, roles, t, grown, root, v, if ok then 1 else 0)
  {
    assert ok ==> InRun(v, v, 1);
  }

  lemma MapFreshFacts(s: Phys, roles: Roles, t: Phys, grown: Roles, root: nat, v: nat, flags: Flags, ok: bool, d: nat)
    requires Inv(t, grown) && IsRoot(grown, root) && OnlySpace(s, roles, t, grown, root)
    requires GrewBy(s, roles, t, grown, root, v, if ok then 1 else 0)
    requires ok ==> 0 < d < |s.used| && !s.used[d] && d < |t.mem| && t.mem[d] == ZeroPage() && v !in PageMap(s.mem, root)
    requires PageMap(t.mem, root) == if ok then PageMap(s.mem, root)[v := Entry(d, flags.(present := true))] else PageMap(s.mem, root)
    ensures Mapped(s, roles, t, grown, root, v, if ok then [d] else [], flags)
  {
    if ok {
      assert v in PageMap(t.mem, root);
      MappedIsPlaced(t, grown, root, v);
      ExtendOne(PageMap(s.mem, root), v, d, flags);
    }
  }

  lemma ExtendOne(m: map<nat, Entry>, first: nat, d: nat, flags: Flags)
    requires first !in m
    ensures Extend(m, first, [d], flags) == m[first := Entry(d, flags.(present := true))]
    ensures Vacant(m, first, |[d]|)
  {
    assert [d][1..] == [] && [d][0] == d;
    assert Extend(m[first := Entry(d, flags.(present := true))], first + 1, [], flags) == m[first := Entry(d, flags.(present := true))];
  }

  /** A zeroed page mapped at `v`, or the attempt, is a run of one page or of none. */
  lemma MapFreshMapped(s: Phys, roles: Roles, root: nat, v: nat, flags: Flags)
    returns (t: Phys, ok: bool, d: nat, grown: Roles)
    requires Inv(s, roles) && IsRoot(roles, root) && UserPage(v)
    ensures (t, ok) == MapFresh(s, root, PathOf(v), flags)
    ensures Mapped(s, roles, t, grown, root, v, if ok then [d] else [], flags)
    ensures !ok ==> v in PageMap(s.mem, root) || Pmm.CountFree(s.used) == 0
                    || Missing(AllocFrame(s, ZeroPage()).0.mem, root, PathOf(v).up) >= Pmm.CountFree(s.used)
  {
    PathOfPage(v);
    grown := MapFreshStep(s, roles, root, v, flags);
    MapFreshLaw(s, roles, root, v, flags, root);
    t, ok := MapFresh(s, root, PathOf(v), flags).0, MapFresh(s, root, PathOf(v), flags).1;
    d := AllocFrame(s, ZeroPage()).1;
    GrewOne(s, roles, t, grown, root, v, ok);
    MapFreshFacts(s, roles, t, grown, root, v, flags, ok, d);
  }

  // ---------------------------------------------------------------------------------------
  // What a run of unmappings takes away
  // ---------------------------------------------------------------------------------------

  ghost predicate LeafIn(r: Role, root: nat, first: nat, n: nat) {
    r.root == root && r.depth == 4 && exists v: nat :: InRun(v, first, n) && r.path == PathOf(v)
  }

  /** Exactly the leaves at [first, first + n) went, and their frames with them. */
  ghost predicate ShrankBy(s: Phys, roles: Roles, t: Phys, rest: Roles, root: nat, first: nat, n: nat) {
    && |t.used| == |s.used|
    && (forall f :: f in rest ==> f in roles && rest[f] == roles[f] && !LeafIn(roles[f], root, first, n))
    && (forall f :: f in roles && !LeafIn(roles[f], root, first, n) ==> f in rest)
    && (forall f: nat :: f < |s.used| ==> t.used[f] == (s.used[f] && (f in roles ==> f in rest)))
    && (forall f :: f in rest && rest[f].depth == 4 && f < |s.mem| ==> f < |t.mem| && t.mem[f] == s.mem[f])
  }

  /** All that unmapping a run of `n` pages from `first` on comes to. */
  ghost predicate Unmapped(s: Phys, roles: Roles, t: Phys, rest: Roles, root: nat, first: nat, n: nat) {
    && Inv(t, rest) && IsRoot(rest, root)
    && OnlySpace(s, roles, t, rest, root)
    && ShrankBy(s, roles, t, rest, root, first, n)
    && PageMap(t.mem, root) == Drop(PageMap(s.mem, root), first, n)
  }

  lemma ShrankOne(s: Phys, roles: Roles, t: Phys, rest: Roles, root: nat, v: nat, gone: set<nat>)
    requires |t.used| == |s.used| && Held(s.used, roles) && Held(t.used, rest)
    requires forall f :: f in rest ==> f in roles && rest[f] == roles[f]
    requires Len(PathOf(v)) == 4 && forall f :: f in roles ==> (Placed(roles, root, PathOf(v), f) <==> f in gone)
    requires forall f :: f in roles && f !in rest ==> f in gone
    requires forall f: nat :: f < |s.used| ==> t.used[f] == (s.used[f] && f !in gone)
    requires forall f :: f in roles && roles[f].depth == 4 && f < |s.mem| ==> f < |t.mem| && t.mem[f] == s.mem[f]
    requires gone <= roles.Keys
    ensures ShrankBy(s, roles, t, rest, root, v, 1)
  {
    assert InRun(v, v, 1);
    forall f | f in roles ensures LeafIn(roles[f], root, v, 1) <==> f in gone {}
  }

  /** The leaf at `v`, if there is one, is the only one that goes when `v` is unmapped. */
  lemma UnmapFreeFacts(s: Phys, roles: Roles, t: Phys, rest: Roles, root: nat, v: nat, m: map<nat, Entry>)
    requires Inv(s, roles) && IsRoot(roles, root) && UserPath(PathOf(v)) && Len(PathOf(v)) == 4
    requires Held(t.used, rest) && |t.used| == |s.used|
    requires forall f :: f in rest ==> f in roles && rest[f] == roles[f]
    requires forall f :: f in roles && f !in rest ==> Placed(roles, root, PathOf(v), f)
    requires forall f :: f in roles && roles[f].depth == 4 && f < |s.mem| ==> f < |t.mem| && t.mem[f] == s.mem[f]
    requires v in m <==> Lookup(s.mem, root, PathOf(v)).Some?
    requires v in m ==> m[v] == Lookup(s.mem, root, PathOf(v)).value
    requires v in m ==> m[v].frame < |s.used| && t.used == s.used[m[v].frame := false]
    requires v !in m ==> t == s
    ensures ShrankBy(s, roles, t, rest, root, v, 1)
  {
    var gone := if v in m then {m[v].frame} else {};
    forall f: nat ensures Placed(roles, root, PathOf(v), f) <==> f in gone {
      LookupIsPlacement(s.mem, roles, root, PathOf(v), f);
    }
    ShrankOne(s, roles, t, rest, root, v, gone);
  }

  /** Unmapping one page with a free is a run of one. */
  lemma UnmapFreeUnmapped(s: Phys, roles: Roles, root: nat, v: nat) returns (t: Phys, rest: Roles)
    requires Inv(s, roles) && IsRoot(roles, root) && UserPage(v)
    ensures t == UnmapFree(s, root, PathOf(v))
    ensures Unmapped(s, roles, t, rest, root, v, 1)
  {
    PathOfPage(v);
    t := UnmapFree(s, root, PathOf(v));
    UnmapFreeLaw(s, roles, root, v, root);
    rest := UnmapFreeStep(s, roles, root, v);
    var m := PageMap(s.mem, root);
    assert v in m <==> Lookup(s.mem, root, PathOf(v)).Some?;
    UnmapFreeFacts(s, roles, t, rest, root, v, m);
    DropSingle(m, PageMap(t.mem, root), v);
  }

  lemma DropSingle(m: map<nat, Entry>, m': map<nat, Entry>, v: nat)
    requires m' == m - {v}
    ensures Drop(m, v, 1) == m'
  {
  }

  lemma LeafInSplit(r: Role, root: nat, first: nat, j: nat, k: nat)
    ensures LeafIn(r, root, first, j + k) <==> LeafIn(r, root, first, j) || LeafIn(r, root, first + j, k)
  {
    if LeafIn(r, root, first, j + k) {
      var v: nat :| InRun(v, first, j + k) && r.path == PathOf(v);
      assert InRun(v, first, j) || InRun(v, first + j, k);
    }
    if LeafIn(r, root, first, j) {
      var v: nat :| InRun(v, first, j) && r.path == PathOf(v);
      assert InRun(v, first, j + k);
    }
    if LeafIn(r, root, first + j, k) {
      var v: nat :| InRun(v, first + j, k) && r.path == PathOf(v);
      assert InRun(v, first, j + k);
    }
  }

  lemma ShrankByTrans(s: Phys, r: Roles, t: Phys, r': Roles, u: Phys, r'': Roles, root: nat, first: nat, j: nat, k: nat)
    requires ShrankBy(s, r, t, r', root, first, j) && ShrankBy(t, r', u, r'', root, first + j, k) && |t.mem| == |s.mem|
    ensures ShrankBy(s, r, u, r'', root, first, j + k)
  {
    forall f | f in r
      ensures LeafIn(r[f], root, first, j + k) <==> LeafIn(r[f], root, first, j) || LeafIn(r[f], root, first + j, k)
    {
      LeafInSplit(r[f], root, first, j, k);
    }
  }

  lemma {:induction false} DropAppend(m: map<nat, Entry>, first: nat, j: nat, k: nat)
    ensures Drop(m, first, j + k) == Drop(Drop(m, first, j), first + j, k)
    decreases j
  {
    if j > 0 { DropAppend(map v | v in m && v != first :: m[v], first + 1, j - 1, k); }
  }

  /** A run unmapped, then another right after it. */
  lemma UnmappedThen(s: Phys, r: Roles, t: Phys, r': Roles, u: Phys, r'': Roles, root: nat, first: nat, j: nat, k: nat)
    requires Unmapped(s, r, t, r', root, first, j) && Unmapped(t, r', u, r'', root, first + j, k)
    ensures Unmapped(s, r, u, r'', root, first, j + k)
  {
    OnlySpaceTrans(s, r, t, r', u, r'', root);
    ShrankByTrans(s, r, t, r', u, r'', root, first, j, k);
    DropAppend(PageMap(s.mem, root), first, j, k);
  }

  lemma UnmappedNone(s: Phys, roles: Roles, root: nat, first: nat)
    requires Inv(s, roles) && IsRoot(roles, root)
    ensures Unmapped(s, roles, s, roles, root, first, 0)
  {
  }

  // ---------------------------------------------------------------------------------------
  // Undoing a run
  // ---------------------------------------------------------------------------------------

  /** Unmapping what a run of mappings added restores the plain map and returns every page frame:
      all that stays allocated of the attempt are page tables of the space itself. */
  lemma Undone(s: Phys, r: Roles, t: Phys, r': Roles, u: Phys, r'': Roles, root: nat, first: nat, ds: seq<nat>, flags: Flags)
    requires Inv(s, r) && IsRoot(r, root) && UserRun(first, |ds|)
    requires Mapped(s, r, t, r', root, first, ds, flags) && Unmapped(t, r', u, r'', root, first, |ds|)
    ensures Mapped(s, r, u, r'', root, 0, [], flags)
  {
    OnlySpaceTrans(s, r, t, r', u, r'', root);
    DropExtend(PageMap(s.mem, root), first, ds, flags);
    OldLeavesOutside(s, r, root, first, |ds|);
    GrewThenShrank(s, r, t, r', u, r'', root, first, |ds|);
  }

  lemma OldLeavesOutside(s: Phys, roles: Roles, root: nat, first: nat, k: nat)
    requires Inv(s, roles) && IsRoot(roles, root) && UserRun(first, k)
    requires Vacant(PageMap(s.mem, root), first, k)
    ensures forall f :: f in roles ==> !LeafIn(roles[f], root, first, k)
  {
    forall f | f in roles && LeafIn(roles[f], root, first, k) ensures false {
      var v: nat :| InRun(v, first, k) && roles[f].path == PathOf(v);
      PathOfPage(v);
      LookupIsPlacement(s.mem, roles, root, PathOf(v), f);
    }
  }

  lemma GrewThenShrank(s: Phys, r: Roles, t: Phys, r': Roles, u: Phys, r'': Roles, root: nat, first: nat, k: nat)
    requires GrewBy(s, r, t, r', root, first, k) && ShrankBy(t, r', u, r'', root, first, k)
    requires forall f :: f in r ==> !LeafIn(r[f], root, first, k)
    requires Held(s.used, r)
    ensures GrewBy(s, r, u, r'', root, 0, 0)
  {
    forall f | f in r'' && f !in r ensures NewPlace(r''[f], root, 0, 0) {
      assert NewPlace(r'[f], root, first, k);
    }
  }
}

/** Address spaces over their whole life: creation, pages coming and going, teardown. */
module Spaces {
  import opened Paging
  import opened PageTree
  import opened PageMapLaws
  import Pmm

  // ---------------------------------------------------------------------------------------
  // Operations
  // ---------------------------------------------------------------------------------------

  /** The frame half of `vmm_create_user_space`: a new root sharing the kernel's slot 0. */
  function CreateRoot(s: Phys, kernelRoot: nat): (Phys, nat) {
    var (s1, f) := AllocFrame(s, ZeroTable());
    if f == 0 then (s1, 0) else (Phys(s1.used, SetEntry(s1.mem, f, 0, EntryAt(s1.mem, kernelRoot, 0))), f)
  }

  /** A zeroed page mapped at `p`, as `mmap`, `brk` and the ELF loader do it: the frame goes
      back when it cannot be mapped. */
  function MapFresh(s: Phys, root: nat, p: Path, flags: Flags): (Phys, bool)
    requires p.Sub?
  {
    var (s1, d) := AllocFrame(s, ZeroPage());
    if d == 0 then (s1, false) else
    var (s2, ok) := MapPage(s1, root, p, d, flags);
    if ok then (s2, true) else (FreeFrames(s2, d, 1), false)
  }

  function UnmapFree(s: Phys, root: nat, p: Path): Phys
    requires p.Sub?
  {
    var (s1, d) := UnmapPage(s, root, p);
    if d == 0 then s1 else FreeFrames(s1, d, 1)
  }

  /** `vmm_free_pt` (depth 3), `vmm_free_pd` (2) and `vmm_free_pdpt` (1), from entry `i` on. */
  function FreeTable(s: Phys, t: nat, depth: nat, i: nat): Phys
    requires 1 <= depth <= 3 && i <= ENTRIES
    decreases 3 - depth, ENTRIES - i
  {
    if i == ENTRIES then FreeFrames(s, t, 1)
    else if !PresentAt(s.mem, t, i) then FreeTable(s, t, depth, i + 1)
    else
      var e := EntryAt(s.mem, t, i);
      var s1 := if depth == 3 then FreeFrames(s, e.frame, 1)
                else if e.flags.huge then FreeFrames(s, e.frame, if depth == 2 then 512 else 512 * 512)
                else FreeTable(s, e.frame, depth + 1, 0);
      FreeTable(Phys(s1.used, SetEntry(s1.mem, t, i, EMPTY)), t, depth, i + 1)
  }

  /** `vmm_destroy_user_space` from entry `i` of the root on; slot 0 is skipped. */
  function DestroyFrom(s: Phys, root: nat, i: nat): Phys
    requires 1 <= i <= ENTRIES
    decreases ENTRIES - i
  {
    if i == ENTRIES then FreeFrames(s, root, 1)
    else if !PresentAt(s.mem, root, i) then DestroyFrom(s, root, i + 1)
    else
      var s1 := FreeTable(s, EntryAt(s.mem, root, i).frame, 1, 0);
      DestroyFrom(Phys(s1.used, SetEntry(s1.mem, root, i, EMPTY)), root, i + 1)
  }

  function Destroy(s: Phys, root: nat): Phys {
    DestroyFrom(s, root, 1)
  }

  // ---------------------------------------------------------------------------------------
  // Only one space changes
  // ---------------------------------------------------------------------------------------

  ghost predicate Of(roles: Roles, f: nat, root: nat) {
    f in roles && roles[f].root == root
  }

  /** Frame `f` is allocated, but not to the space of `root`. */
  ghost predicate ElsewhereUsed(s: Phys, roles: Roles, root: nat, f: nat) {
    f < |s.used| && s.used[f] && !Of(roles, f, root)
  }

  /** Between (s, roles) and (t, roles') frames came to and went from the space of `root` only:
      all others kept their allocation, their place and their contents. */
  ghost predicate OnlySpace(s: Phys, roles: Roles, t: Phys, roles': Roles, root: nat) {
    && |t.used| == |s.used| && |t.mem| == |s.mem|
    && (forall f: nat :: ElsewhereUsed(t, roles', root, f) <==> ElsewhereUsed(s, roles, root, f))
    && (forall f: nat :: f < |s.mem| && ElsewhereUsed(s, roles, root, f) ==> t.mem[f] == s.mem[f])
    && (forall f :: f in roles && roles[f].root != root ==> f in roles' && roles'[f] == roles[f])
    && (forall f :: f in roles' && roles'[f].root != root ==> f in roles && roles[f] == roles'[f])
  }

  lemma OnlySpaceTrans(s: Phys, r: Roles, t: Phys, r': Roles, u: Phys, r'': Roles, root: nat)
    requires OnlySpace(s, r, t, r', root) && OnlySpace(t, r', u, r'', root)
    ensures OnlySpace(s, r, u, r'', root)
  {
    forall f: nat | f < |s.mem| && ElsewhereUsed(s, r, root, f) ensures u.mem[f] == s.mem[f] {
      assert ElsewhereUsed(t, r', root, f);
    }
  }

  /** When the space is gone, the bitmap is what it was before the space existed. */
  lemma GoneMeansConserved(s: Phys, r: Roles, t: Phys, r': Roles, root: nat)
    requires OnlySpace(s, r, t, r', root)
    requires forall f :: f in r ==> r[f].root != root
    requires forall f :: f in r' ==> r'[f].root != root
    ensures t.used == s.used && r' == r
    ensures Pmm.CountFree(t.used) == Pmm.CountFree(s.used)
    ensures forall f: nat :: f < |s.mem| && f < |s.used| && s.used[f] ==> t.mem[f] == s.mem[f]
  {
    forall f: nat | f < |s.used| ensures t.used[f] == s.used[f] {
      assert ElsewhereUsed(t, r', root, f) <==> ElsewhereUsed(s, r, root, f);
    }
    forall f: nat | f < |s.mem| && f < |s.used| && s.used[f] ensures t.mem[f] == s.mem[f] {
      assert ElsewhereUsed(s, r, root, f);
    }
  }

  // ---------------------------------------------------------------------------------------
  // Each operation changes only its own space
  // ---------------------------------------------------------------------------------------

  lemma CreateRootStep(s: Phys, roles: Roles, kernelRoot: nat) returns (grown: Roles)
    requires Inv(s, roles)
    ensures var (t, f) := CreateRoot(s, kernelRoot);
            && Inv(t, grown)
            && (f == 0 <==> Pmm.CountFree(s.used) == 0)
            && (f == 0 ==> t == s && grown == roles)
            && (f != 0 ==> f !in roles && grown == roles[f := Role(f, 0, Top, f)] && f < |s.used| && !s.used[f]
                           && OnlySpace(s, roles, t, grown, f) && PageMap(t.mem, f) == map[]
                           && (forall other :: IsRoot(roles, other) ==> PageMap(t.mem, other) == PageMap(s.mem, other))
                           && EntryAt(t.mem, f, 0) == if kernelRoot == f then EMPTY else EntryAt(s.mem, kernelRoot, 0))
  {
    Pmm.AllocOneSucceeds(s.used);
    var (t, f) := CreateRoot(s, kernelRoot);
    grown := roles;
    if f != 0 {
      grown := roles[f := Role(f, 0, Top, f)];
      AddRoot(s.mem, roles, f, t.mem);
    }
  }

  /** A table with no user entries, outside the tree, may become a root. */
  lemma AddRoot(m: seq<Frame>, roles: Roles, f: nat, m': seq<Frame>)
    requires Tree(m, roles) && |m'| == |m| && 0 < f < |m| && f !in roles && m'[f].Table?
    requires forall g: nat :: g < |m| && g != f ==> m'[g] == m[g]
    requires forall i: nat :: 0 < i < ENTRIES ==> !PresentAt(m', f, i)
    ensures var grown := roles[f := Role(f, 0, Top, f)];
            && Tree(m', grown) && PageMap(m', f) == map[]
            && (forall other :: IsRoot(roles, other) ==> PageMap(m', other) == PageMap(m, other))
            && (forall g :: g in roles ==> roles[g].root != f)
  {
    var grown := roles[f := Role(f, 0, Top, f)];
    forall g | g in grown ensures FrameOk(m', grown, g) {
      if g != f {
        assert FrameOk(m, roles, g) && ParentOk(m, roles, g);
        forall j: nat | grown[g].depth < 4 && j < ENTRIES ensures ChildOk(m', grown, g, j) {
          assert ChildOk(m, roles, g, j);
        }
      }
    }
    forall p | UserPath(p) && Len(p) == 4 ensures Lookup(m', f, p).None? { EmptyRootWalk(m', f, p); }
    forall v: nat | UserPage(v) ensures Lookup(m', f, PathOf(v)).None? { PathOfPage(v); }
    forall other | IsRoot(roles, other) ensures PageMap(m', other) == PageMap(m, other) {
      forall p | UserPath(p) && Len(p) == 4 ensures Lookup(m', other, p) == Lookup(m, other, p) {
        forall g | Placed(roles, other, p, g) ensures EntryAt(m', grown[g].parent, p.i) == EntryAt(m, roles[g].parent, p.i) {
          assert FrameOk(m, roles, g) && ParentOk(m, roles, g);
        }
        SamePlaceSameLookup(m, roles, m', grown, other, p);
      }
      SameLookupsSameMap(m, m', other);
    }
    forall g | g in roles ensures roles[g].root != f { assert FrameOk(m, roles, g); }
  }

  lemma {:induction false} EmptyRootWalk(m: seq<Frame>, root: nat, p: Path)
    requires forall i: nat :: 0 < i < ENTRIES ==> !PresentAt(m, root, i)
    requires UserPath(p) && p.Sub?
    ensures Walk(m, root, p).None?
  {
    if p.up.Sub? { EmptyRootWalk(m, root, p.up); }
  }

  /** Allocating a page leaves it outside every space and changes no translation. */
  lemma AllocPageStep(s: Phys, roles: Roles)
    requires Inv(s, roles)
    ensures var (t, d) := AllocFrame(s, ZeroPage());
            && Inv(t, roles)
            && (d == 0 <==> Pmm.CountFree(s.used) == 0)
            && (d == 0 ==> t == s)
            && (d != 0 ==> FreshData(t, roles, d) && !s.used[d] && t == Phys(s.used[d := true], s.mem[d := ZeroPage()])
                           && Pmm.CountFree(t.used) == Pmm.CountFree(s.used) - 1)
            && (forall root :: IsRoot(roles, root) ==> PageMap(t.mem, root) == PageMap(s.mem, root))
  {
    Pmm.AllocOneSucceeds(s.used);
    var (t, d) := AllocFrame(s, ZeroPage());
    if d != 0 {
      forall f | f in roles ensures FrameOk(s.mem, roles, f) && f != d {}
      DataWriteKeepsMaps(s.mem, t.mem, roles);
    }
  }

  /** Taking frame `d`, growing the space, and giving `d` back unless it was linked. */
  lemma GrowFromFree(s: Phys, roles: Roles, t: Phys, grown: Roles, root: nat, d: nat, linked: bool)
    requires Inv(s, roles) && 0 < d < |s.used| && !s.used[d]
    requires Grows(Phys(s.used[d := true], s.mem[d := ZeroPage()]), roles, t, grown, root, d, linked)
    requires Inv(t, grown)
    ensures var u := if linked then t else FreeFrames(t, d, 1);
            && Inv(u, grown) && OnlySpace(s, roles, u, grown, root)
            && u.mem[d] == ZeroPage()
            && (forall f: nat :: f < |s.used| ==> u.used[f] == (s.used[f] || f in grown))
            && (forall f :: f in roles && roles[f].depth == 4 && f < |s.mem| ==> u.mem[f] == s.mem[f])
  {
  }

  /** Mapping a fresh page changes only its space and keeps all that was placed; exactly the
      frames of the tables and the page it adds become allocated. */
  lemma MapFreshStep(s: Phys, roles: Roles, root: nat, v: nat, flags: Flags) returns (grown: Roles)
    requires Inv(s, roles) && IsRoot(roles, root) && UserPage(v)
    ensures var (t, ok) := MapFresh(s, root, PathOf(v), flags);
            && Inv(t, grown) && OnlySpace(s, roles, t, grown, root)
            && (forall f :: f in roles ==> f in grown && grown[f] == roles[f])
            && (forall f :: f in roles && roles[f].depth == 4 && f < |s.mem| ==> t.mem[f] == s.mem[f])
            && (forall f :: f in grown && f !in roles ==>
                  f < |s.used| && !s.used[f] && grown[f].root == root && (1 <= grown[f].depth <= 3 || (ok && Placed(grown, root, PathOf(v), f))))
            && (forall f: nat :: f < |s.used| ==> t.used[f] == (s.used[f] || f in grown))
  {
    PathOfPage(v);
    AllocPageStep(s, roles);
    var (s1, d) := AllocFrame(s, ZeroPage());
    grown := roles;
    if d != 0 {
      grown := MapPageStep(s1, roles, root, PathOf(v), d, flags);
      var (s2, ok) := MapPage(s1, root, PathOf(v), d, flags);
      GrowFromFree(s, roles, s2, grown, root, d, ok);
    }
  }

  /** What `MapFresh` comes to on the plain maps: one zeroed page on a frame that was free is
      added to its space, or nothing; it succeeds exactly when the page is unmapped and there
      are frames for it and for the tables missing on its way. */
  lemma MapFreshLaw(s: Phys, roles: Roles, root: nat, v: nat, flags: Flags, other: nat)
    requires Inv(s, roles) && IsRoot(roles, root) && UserPage(v) && IsRoot(roles, other)
    ensures var (t, ok) := MapFresh(s, root, PathOf(v), flags);
            var d := AllocFrame(s, ZeroPage()).1;
            && (ok ==> 0 < d < |s.used| && !s.used[d] && d < |t.mem| && t.mem[d] == ZeroPage())
            && PageMap(t.mem, other) ==
                 (if ok && other == root then PageMap(s.mem, root)[v := Entry(d, flags.(present := true))]
                  else PageMap(s.mem, other))
            && (ok ==> v !in PageMap(s.mem, root))
            && (ok <==> v !in PageMap(s.mem, root) && Pmm.CountFree(s.used) > 0
                        && Missing(AllocFrame(s, ZeroPage()).0.mem, root, PathOf(v).up) < Pmm.CountFree(s.used))
  {
    AllocPageStep(s, roles);
    var (s1, d) := AllocFrame(s, ZeroPage());
    if d != 0 {
      PathOfPage(v);
      MapPageLaw(s1, roles, root, v, d, flags, other);
      var grown := MapPageStep(s1, roles, root, PathOf(v), d, flags);
    }
  }

  lemma UnlinkOnlySpace(s: Phys, roles: Roles, t: Phys, d: nat, root: nat)
    requires Inv(s, roles) && Of(roles, d, root) && roles[d].depth == 4
    requires t.used == s.used && FreshData(t, roles - {d}, d) && Inv(t, roles - {d})
    requires forall f: nat :: f < |s.mem| && (s.mem[f].Data? || f !in roles) ==> t.mem[f] == s.mem[f]
    requires forall f: nat :: f < |s.mem| && f in roles && roles[f].root != root ==> t.mem[f] == s.mem[f]
    ensures var u := FreeFrames(t, d, 1);
            && u.used == s.used[d := false]
            && Inv(u, roles - {d}) && OnlySpace(s, roles, u, roles - {d}, root)
  {
  }

  /** Unmapping with a free removes one page and returns exactly its frame to the allocator. */
  lemma UnmapFreeStep(s: Phys, roles: Roles, root: nat, v: nat) returns (rest: Roles)
    requires Inv(s, roles) && IsRoot(roles, root) && UserPage(v)
    ensures var t := UnmapFree(s, root, PathOf(v));
            && Inv(t, rest) && OnlySpace(s, roles, t, rest, root)
            && (forall f :: f in rest ==> f in roles && rest[f] == roles[f])
            && (forall f :: f in roles && roles[f].depth < 4 ==> f in rest)
            && (forall f :: f in roles && f !in rest ==> Placed(roles, root, PathOf(v), f))
            && (forall f :: f in roles && roles[f].depth == 4 && f < |s.mem| ==> t.mem[f] == s.mem[f])
  {
    PathOfPage(v);
    var (s1, d) := UnmapPage(s, root, PathOf(v));
    UnmapPageStep(s, roles, root, PathOf(v));
    rest := roles - {d};
    forall f | f in roles && roles[f].depth == 4 ensures 0 < f < |s.mem| && s.mem[f].Data? { assert FrameOk(s.mem, roles, f); }
    if d != 0 {
      UnmapFindsLeaf(s, roles, root, PathOf(v));
      assert FrameOk(s.mem, roles, d) && ParentOk(s.mem, roles, d);
      UnlinkOnlySpace(s, roles, s1, d, root);
    }
  }

  lemma UnmapFreeLaw(s: Phys, roles: Roles, root: nat, v: nat, other: nat)
    requires Inv(s, roles) && IsRoot(roles, root) && UserPage(v) && IsRoot(roles, other)
    ensures var t := UnmapFree(s, root, PathOf(v));
            var m := PageMap(s.mem, root);
            && PageMap(t.mem, other) == (if other == root then m - {v} else PageMap(s.mem, other))
            && (v in m ==> 0 < m[v].frame < |s.used| && s.used[m[v].frame] && t.used == s.used[m[v].frame := false])
            && (v !in m ==> t == s)
  {
    PathOfPage(v);
    UnmapPageLaw(s, roles, root, v, other);
    assert v in PageMap(s.mem, root) <==> Lookup(s.mem, root, PathOf(v)).Some?;
    UnmapPageStep(s, roles, root, PathOf(v));
  }

  // ---------------------------------------------------------------------------------------
  // Teardown. Nothing here needs the frames of the space to be marked as allocated still.
  // ---------------------------------------------------------------------------------------

  /** From (s, roles) to (u, rest) frames of the space of `t` were unlinked and freed; among the
      frames that stay placed only the table `t` was written. */
  ghost predicate Pruned(s: Phys, roles: Roles, u: Phys, rest: Roles, t: nat) {
    && t in roles && t in rest
    && |u.used| == |s.used| == |u.mem| == |s.mem|
    && (forall f :: f in rest ==> f in roles && rest[f] == roles[f])
    && (forall f :: f in roles && f !in rest ==> roles[f].root == roles[t].root && roles[f].depth > roles[t].depth)
    && (forall f: nat :: f < |s.used| ==> u.used[f] == (s.used[f] && (f in roles ==> f in rest)))
    && (forall f: nat :: f < |s.mem| && (f in roles ==> f in rest && f != t) ==> u.mem[f] == s.mem[f])
  }

  lemma PrunedTrans(s: Phys, r: Roles, u: Phys, r': Roles, w: Phys, r'': Roles, t: nat)
    requires Pruned(s, r, u, r', t) && Pruned(u, r', w, r'', t)
    ensures Pruned(s, r, w, r'', t)
  {
  }

  /** A child `c` already cleared of what hung below it is freed and its entry cleared. */
  lemma UnlinkChild(s: Phys, roles: Roles, x: Phys, r1: Roles, t: nat, c: nat) returns (u: Phys)
    requires Tree(s.mem, roles) && t in roles && c in roles && roles[c].depth > 0 && roles[c].parent == t
    requires Tree(x.mem, r1) && Pruned(s, roles, x, r1, c) && Childless(x.mem, r1, c) && r1[c] == roles[c]
    ensures roles[c].path.Sub?
    ensures u == Phys(FreeFrames(x, c, 1).used, SetEntry(x.mem, t, roles[c].path.i, EMPTY))
    ensures Tree(u.mem, r1 - {c}) && Pruned(s, roles, u, r1 - {c}, t)
    ensures t < |s.mem| && x.mem[t] == s.mem[t]
  {
    assert FrameOk(s.mem, roles, c) && ParentOk(s.mem, roles, c) && FrameOk(s.mem, roles, t);
    assert t in r1;
    UnlinkFrame(x.mem, r1, c);
    u := Phys(FreeFrames(x, c, 1).used, SetEntry(x.mem, t, roles[c].path.i, EMPTY));
  }

  ghost predicate NonePresent(m: seq<Frame>, t: nat, lo: nat, hi: nat) {
    forall j: nat {:trigger PresentAt(m, t, j)} :: lo <= j < hi ==> !PresentAt(m, t, j)
  }

  /** The state after the subtree below entry `i` of `t` is freed and the entry cleared. */
  function AfterChild(s: Phys, t: nat, depth: nat, i: nat): Phys
    requires depth <= 3
  {
    var c := EntryAt(s.mem, t, i).frame;
    var s1 := if depth == 3 then FreeFrames(s, c, 1) else FreeTable(s, c, depth + 1, 0);
    Phys(s1.used, SetEntry(s1.mem, t, i, EMPTY))
  }

  lemma FreeTableUnfold(s: Phys, t: nat, depth: nat, i: nat)
    requires 1 <= depth <= 3 && i < ENTRIES
    ensures !PresentAt(s.mem, t, i) ==> FreeTable(s, t, depth, i) == FreeTable(s, t, depth, i + 1)
    ensures PresentAt(s.mem, t, i) && (EntryAt(s.mem, t, i).flags.huge ==> depth == 3) ==>
              FreeTable(s, t, depth, i) == FreeTable(AfterChild(s, t, depth, i), t, depth, i + 1)
  {
  }

  lemma ClearEntry(m: seq<Frame>, m': seq<Frame>, t: nat, lo: nat, i: nat)
    requires t < |m| && t < |m'| && m'[t] == m[t] && m[t].Table? && i < ENTRIES && NonePresent(m, t, lo, i)
    ensures NonePresent(SetEntry(m', t, i, EMPTY), t, lo, i + 1)
  {
    forall j: nat | lo <= j < i + 1 ensures !PresentAt(SetEntry(m', t, i, EMPTY), t, j) {
      assert j < i ==> !PresentAt(m, t, j);
    }
  }

  /** What hangs below `c` is freed: nothing, when `c` is a page. */
  lemma {:induction false} PruneBelow(s: Phys, roles: Roles, c: nat, depth: nat) returns (x: Phys, rest: Roles)
    requires Tree(s.mem, roles) && |s.used| == |s.mem| && c in roles && roles[c].depth == depth && 1 <= depth <= 4
    ensures depth < 4 ==> FreeTable(s, c, depth, 0) == FreeFrames(x, c, 1)
    ensures depth == 4 ==> x == s
    ensures Tree(x.mem, rest) && Pruned(s, roles, x, rest, c) && Childless(x.mem, rest, c)
    decreases 4 - depth, 1
  {
    if depth < 4 {
      x, rest := FreeTableStep(s, roles, c, depth, 0);
    } else {
      x, rest := s, roles;
    }
  }

  /** Freeing a child takes its subtree out of the tree and touches nothing else. */
  lemma {:induction false} PruneChild(s: Phys, roles: Roles, t: nat, depth: nat, i: nat, lo: nat) returns (rest: Roles)
    requires Tree(s.mem, roles) && |s.used| == |s.mem| && t in roles && roles[t].depth == depth <= 3
    requires UserStep(roles[t].path, i) && PresentAt(s.mem, t, i) && NonePresent(s.mem, t, lo, i)
    ensures EntryAt(s.mem, t, i).flags.huge ==> depth == 3
    ensures var u := AfterChild(s, t, depth, i);
            Tree(u.mem, rest) && Pruned(s, roles, u, rest, t) && NonePresent(u.mem, t, lo, i + 1)
    decreases 4 - depth, 0, ENTRIES - i, 0
  {
    assert FrameOk(s.mem, roles, t) && ChildOk(s.mem, roles, t, i);
    var c := EntryAt(s.mem, t, i).frame;
    assert FrameOk(s.mem, roles, c);
    var x, r1 := PruneBelow(s, roles, c, depth + 1);
    var u := UnlinkChild(s, roles, x, r1, t, c);
    ClearEntry(s.mem, x.mem, t, lo, i);
    rest := r1 - {c};
  }

  /** Freeing a table frees what hangs below it, which leaves it empty, and then the table. */
  lemma {:induction false} FreeTableStep(s: Phys, roles: Roles, t: nat, depth: nat, i: nat) returns (x: Phys, rest: Roles)
    requires Tree(s.mem, roles) && |s.used| == |s.mem| && t in roles && roles[t].depth == depth && 1 <= depth <= 3
    requires i <= ENTRIES && NonePresent(s.mem, t, 0, i)
    ensures FreeTable(s, t, depth, i) == FreeFrames(x, t, 1)
    ensures Tree(x.mem, rest) && Pruned(s, roles, x, rest, t) && Childless(x.mem, rest, t)
    decreases 4 - depth, 0, ENTRIES - i, 1
  {
    if i == ENTRIES {
      x, rest := s, roles;
    } else {
      FreeTableUnfold(s, t, depth, i);
      if PresentAt(s.mem, t, i) {
        assert UserStep(roles[t].path, i) by { assert FrameOk(s.mem, roles, t) && ParentOk(s.mem, roles, t); }
        var s1 := AfterChild(s, t, depth, i);
        var r1 := PruneChild(s, roles, t, depth, i, 0);
        x, rest := FreeTableStep(s1, r1, t, depth, i + 1);
        PrunedTrans(s, roles, s1, r1, x, rest, t);
      } else {
        x, rest := FreeTableStep(s, roles, t, depth, i + 1);
      }
    }
  }

  lemma {:induction false} DestroyFromStep(s: Phys, roles: Roles, root: nat, i: nat) returns (x: Phys, rest: Roles)
    requires Tree(s.mem, roles) && |s.used| == |s.mem| && IsRoot(roles, root)
    requires 1 <= i <= ENTRIES && NonePresent(s.mem, root, 1, i)
    ensures DestroyFrom(s, root, i) == FreeFrames(x, root, 1)
    ensures Tree(x.mem, rest) && Pruned(s, roles, x, rest, root) && NonePresent(x.mem, root, 1, ENTRIES)
    decreases ENTRIES - i
  {
    if i == ENTRIES {
      assert FrameOk(s.mem, roles, root);
      x, rest := s, roles;
    } else if PresentAt(s.mem, root, i) {
      var s1 := AfterChild(s, root, 0, i);
      var r1 := PruneChild(s, roles, root, 0, i, 1);
      x, rest := DestroyFromStep(s1, r1, root, i + 1);
      PrunedTrans(s, roles, s1, r1, x, rest, root);
    } else {
      x, rest := DestroyFromStep(s, roles, root, i + 1);
    }
  }

  /** Under a root with no user entries nothing is placed. */
  lemma {:induction false} NothingBelow(m: seq<Frame>, roles: Roles, root: nat, f: nat)
    requires Tree(m, roles) && IsRoot(roles, root) && Of(roles, f, root) && NonePresent(m, root, 1, ENTRIES)
    ensures f == root
    decreases roles[f].depth
  {
    assert FrameOk(m, roles, f) && ParentOk(m, roles, f);
    if roles[f].depth > 0 {
      assert FrameOk(m, roles, roles[f].parent);
      NothingBelow(m, roles, root, roles[f].parent);
    }
  }

  ghost function Without(roles: Roles, root: nat): Roles {
    map f | f in roles && roles[f].root != root :: roles[f]
  }

  /** Teardown frees exactly the frames of the space: its root, its tables and its pages. The
      kernel's part under slot 0 and every other space keep their frames and contents. */
  lemma DestroyLaw(s: Phys, roles: Roles, root: nat)
    requires Tree(s.mem, roles) && |s.used| == |s.mem| && IsRoot(roles, root)
    ensures var t := Destroy(s, root);
            && Tree(t.mem, Without(roles, root))
            && |t.used| == |s.used| && |t.mem| == |s.mem|
            && (forall f: nat :: f < |s.used| ==> t.used[f] == (s.used[f] && !Of(roles, f, root)))
            && (forall f: nat :: f < |s.mem| && !Of(roles, f, root) ==> t.mem[f] == s.mem[f])
  {
    var x, r1 := DestroyFromStep(s, roles, root, 1);
    assert FrameOk(s.mem, roles, root);
    forall f | Of(r1, f, root) ensures f == root { NothingBelow(x.mem, r1, root, f); }
    assert r1 - {root} == Without(roles, root) by {
      forall f ensures f in r1 - {root} <==> f in Without(roles, root) {
        assert f in r1 && r1[f].root == root ==> Of(r1, f, root);
      }
    }
    DropRoot(x.mem, r1, root);
    forall f: nat | f < |s.used| ensures Destroy(s, root).used[f] == (s.used[f] && !Of(roles, f, root)) {
      assert Of(r1, f, root) ==> f == root;
    }
  }

  lemma DropRoot(m: seq<Frame>, roles: Roles, root: nat)
    requires Tree(m, roles) && IsRoot(roles, root)
    requires forall f :: Of(roles, f, root) ==> f == root
    ensures Tree(m, roles - {root})
  {
    var rest := roles - {root};
    forall f | f in rest ensures FrameOk(m, rest, f) {
      assert FrameOk(m, roles, f) && ParentOk(m, roles, f);
      assert FrameOk(m, roles, root);
      assert !Of(roles, f, root);
      forall i: nat | roles[f].depth < 4 && i < ENTRIES ensures ChildOk(m, rest, f, i) {
        assert ChildOk(m, roles, f, i);
      }
    }
  }

  datatype PageOp = MapOp(v: nat, flags: Flags) | UnmapOp(v: nat)

  function Apply(s: Phys, root: nat, op: PageOp): Phys {
    match op
    case MapOp(v, flags) => MapFresh(s, root, PathOf(v), flags).0
    case UnmapOp(v) => UnmapFree(s, root, PathOf(v))
  }

  /** A page mapped or unmapped, with or without success, changes only its own space. */
  lemma ApplyStep(s: Phys, roles: Roles, root: nat, op: PageOp) returns (after: Roles)
    requires Inv(s, roles) && IsRoot(roles, root) && UserPage(op.v)
    ensures var t := Apply(s, root, op);
            && Inv(t, after) && OnlySpace(s, roles, t, after, root)
            && (forall r :: IsRoot(after, r) <==> IsRoot(roles, r))
  {
    PathOfPage(op.v);
    match op
    case MapOp(v, flags) => after := MapFreshStep(s, roles, root, v, flags);
    case UnmapOp(v) => after := UnmapFreeStep(s, roles, root, v);
  }

  lemma DestroyStep(s: Phys, roles: Roles, root: nat)
    requires Inv(s, roles) && IsRoot(roles, root)
    ensures var t := Destroy(s, root);
            Inv(t, Without(roles, root)) && OnlySpace(s, roles, t, Without(roles, root), root)
  {
    DestroyLaw(s, roles, root);
    assert 0 in roles ==> FrameOk(s.mem, roles, 0);
  }

  /** A space that came after `s` and is given up, whatever was done in it, leaves nothing behind. */
  lemma AbandonedConserves(s: Phys, roles: Roles, u: Phys, after: Roles, root: nat)
    requires Inv(s, roles) && root !in roles && Inv(u, after) && IsRoot(after, root) && OnlySpace(s, roles, u, after, root)
    ensures var z := Destroy(u, root);
            && z.used == s.used && Pmm.CountFree(z.used) == Pmm.CountFree(s.used) && Inv(z, roles)
            && forall f: nat :: f < |s.mem| && f < |s.used| && s.used[f] ==> f < |z.mem| && z.mem[f] == s.mem[f]
  {
    var z, gone := Destroy(u, root), Without(after, root);
    DestroyStep(u, after, root);
    OnlySpaceTrans(s, roles, u, after, z, gone, root);
    forall f | f in roles ensures roles[f].root != root { assert FrameOk(s.mem, roles, f); }
    forall f | f in gone ensures gone[f].root != root {}
    GoneMeansConserved(s, roles, z, gone, root);
  }
}

/** What mapping and unmapping do to the plain map of every address space. */
module PageMapLaws {
  import opened Basics
  import opened Paging
  import opened PageTree
  import Pmm

  // ---------------------------------------------------------------------------------------
  // Making tables
  // ---------------------------------------------------------------------------------------

  /** From (s, roles) to (t, grown) nothing happened but the addition of inner tables to `root`. */
  ghost predicate Extends(s: Phys, roles: Roles, t: Phys, grown: Roles, root: nat) {
    && |t.mem| == |s.mem| == |t.used| == |s.used|
    && (forall f :: f in roles ==> f in grown && grown[f] == roles[f])
    && (forall f :: f in grown && f !in roles ==>
          1 <= grown[f].depth <= 3 && grown[f].root == root && f < |s.used| && !s.used[f])
    && (forall f: nat :: f < |s.used| ==> t.used[f] == (s.used[f] || f in grown))
    && (forall f: nat :: f < |s.mem| && (f in grown ==> f in roles && (roles[f].depth >= 3 || roles[f].root != root)) ==>
          t.mem[f] == s.mem[f])
  }

  lemma ExtendsTrans(s: Phys, r: Roles, t: Phys, r': Roles, u: Phys, r'': Roles, root: nat)
    requires Extends(s, r, t, r', root) && Extends(t, r', u, r'', root)
    ensures Extends(s, r, u, r'', root)
  {
  }

  /** Adding tables leaves every translation of every space as it was. */
  lemma ExtendsKeepsLookup(s: Phys, roles: Roles, t: Phys, grown: Roles, made: nat, root: nat, p: Path)
    requires Tree(s.mem, roles) && Tree(t.mem, grown) && Extends(s, roles, t, grown, made)
    requires IsRoot(roles, root) && UserPath(p) && Len(p) == 4
    ensures Lookup(t.mem, root, p) == Lookup(s.mem, root, p)
  {
    forall f | Placed(roles, root, p, f)
      ensures EntryAt(t.mem, grown[f].parent, p.i) == EntryAt(s.mem, roles[f].parent, p.i)
    {
      assert FrameOk(s.mem, roles, f) && ParentOk(s.mem, roles, f) && FrameOk(s.mem, roles, roles[f].parent);
    }
    SamePlaceSameLookup(s.mem, roles, t.mem, grown, root, p);
  }

  lemma MakeTableStep(s: Phys, roles: Roles, parent: nat, i: nat, flags: Flags, f: nat)
    requires Inv(s, roles) && parent in roles && roles[parent].depth < 3
    requires f < |s.used| && !s.used[f] && CanLink(s.mem, roles, parent, i, f, ZeroTable(), flags)
    ensures var t := Phys(s.used[f := true], SetEntry(s.mem[f := ZeroTable()], parent, i, Entry(f, flags)));
            var grown := roles[f := ChildRole(roles, parent, i)];
            Inv(t, grown) && Extends(s, roles, t, grown, roles[parent].root)
  {
    LinkFrame(s.mem, roles, parent, i, f, ZeroTable(), flags);
  }

  /** `ensure_table` keeps the tree and adds at most its own table. */
  lemma EnsureTableStep(s: Phys, roles: Roles, parent: nat, i: nat, flags: Flags) returns (grown: Roles)
    requires Inv(s, roles) && parent in roles && roles[parent].depth < 3 && UserStep(roles[parent].path, i)
    requires flags.present && !flags.huge
    ensures var (t, r) := EnsureTable(s, parent, i, flags);
            && Inv(t, grown) && Extends(s, roles, t, grown, roles[parent].root)
            && (r.Some? ==> r.value in grown && grown[r.value] == ChildRole(roles, parent, i))
            && (forall f :: f in grown && f !in roles ==> grown[f] == ChildRole(roles, parent, i))
            && (r.Some? && !PresentAt(s.mem, parent, i) ==> t.mem[r.value] == ZeroTable())
  {
    grown := roles;
    assert FrameOk(s.mem, roles, parent);
    assert ChildOk(s.mem, roles, parent, i);
    Pmm.AllocOneSucceeds(s.used);
    var f := Pmm.Alloc(s.used, 1).1;
    if !PresentAt(s.mem, parent, i) && f != 0 {
      MakeTableStep(s, roles, parent, i, flags, f);
      grown := roles[f := ChildRole(roles, parent, i)];
    }
  }

  /** The tables made on the way to `p` keep the tree and lead to the table placed at `p`. */
  lemma {:induction false} EnsureStep(s: Phys, roles: Roles, root: nat, p: Path, flags: Flags) returns (grown: Roles)
    requires Inv(s, roles) && IsRoot(roles, root) && UserPath(p) && Len(p) <= 3
    requires flags.present && !flags.huge
    ensures var (t, r) := Ensure(s, root, p, flags);
            && Inv(t, grown) && Extends(s, roles, t, grown, root)
            && (r.Some? ==> Placed(grown, root, p, r.value))
            && (forall f :: f in grown && f !in roles ==> OnWay(grown[f].path, p))
  {
    if p.Top? {
      grown := roles;
      assert FrameOk(s.mem, roles, root);
    } else {
      grown := EnsureStep(s, roles, root, p.up, flags);
      var (s1, t) := Ensure(s, root, p.up, flags);
      if t.Some? {
        var r1 := grown;
        grown := EnsureTableStep(s1, r1, t.value, p.i, flags);
        ExtendsTrans(s, roles, s1, r1, Ensure(s, root, p, flags).0, grown, root);
      }
    }
  }

  // ---------------------------------------------------------------------------------------
  // When tables can be made
  // ---------------------------------------------------------------------------------------

  /** The number of tables missing on the way to `p`. */
  function Missing(mem: seq<Frame>, root: nat, p: Path): nat {
    if p.Top? || Walk(mem, root, p).Some? then 0 else 1 + Missing(mem, root, p.up)
  }

  /** A table already there is found without touching anything; one made anew is empty. */
  lemma {:induction false} EnsureFinds(s: Phys, root: nat, p: Path, flags: Flags)
    requires Sound(s) && root < |s.used| && s.used[root]
    ensures Walk(s.mem, root, p).Some? ==> Ensure(s, root, p, flags) == (s, Walk(s.mem, root, p))
  {
    if p.Sub? { EnsureFinds(s, root, p.up, flags); }
  }

  lemma EnsureTableCount(s: Phys, parent: nat, i: nat, flags: Flags)
    requires Sound(s) && parent < |s.used| && s.used[parent]
    ensures var (t, r) := EnsureTable(s, parent, i, flags);
            && (r.None? <==> !PresentAt(s.mem, parent, i) && Pmm.CountFree(s.used) == 0)
            && (r.Some? && !PresentAt(s.mem, parent, i) ==>
                  r.value < |t.mem| && t.mem[r.value] == ZeroTable() && Pmm.CountFree(t.used) == Pmm.CountFree(s.used) - 1)
  {
    Pmm.AllocOneSucceeds(s.used);
  }

  /** The tables can be had exactly when enough frames are free for those missing. */
  lemma {:induction false} EnsureCount(s: Phys, roles: Roles, root: nat, p: Path, flags: Flags)
    requires Inv(s, roles) && IsRoot(roles, root) && UserPath(p) && Len(p) <= 3
    requires flags.present && !flags.huge
    ensures var (t, r) := Ensure(s, root, p, flags);
            && (r.Some? <==> Missing(s.mem, root, p) <= Pmm.CountFree(s.used))
            && (r.Some? ==> Pmm.CountFree(t.used) == Pmm.CountFree(s.used) - Missing(s.mem, root, p))
            && (r.Some? && Walk(s.mem, root, p).None? ==> r.value < |t.mem| && t.mem[r.value] == ZeroTable())
  {
    EnsureFinds(s, root, p, flags);
    if p.Sub? && Walk(s.mem, root, p).None? {
      EnsureCount(s, roles, root, p.up, flags);
      EnsureFinds(s, root, p.up, flags);
      var grown := EnsureStep(s, roles, root, p.up, flags);
      var (s1, t) := Ensure(s, root, p.up, flags);
      if t.Some? { EnsureTableCount(s1, t.value, p.i, flags); }
    }
  }

  // ---------------------------------------------------------------------------------------
  // Mapping a page
  // ---------------------------------------------------------------------------------------

  /** Frame `d` is allocated, holds data and belongs to no space. */
  ghost predicate FreshData(s: Phys, roles: Roles, d: nat) {
    0 < d < |s.mem| && d < |s.used| && s.used[d] && s.mem[d].Data? && d !in roles
  }

  /** Entering a leaf at page `p` adds that translation and changes no other, in any space. */
  lemma LinkLeafLookup(m: seq<Frame>, roles: Roles, t: nat, p: Path, d: nat, flags: Flags, root: nat, q: Path)
    requires Tree(m, roles) && p.Sub? && t in roles && roles[t].depth == 3 && roles[t].path == p.up
    requires 0 < d < |m| && CanLink(m, roles, t, p.i, d, m[d], flags)
    requires IsRoot(roles, root) && UserPath(q) && Len(q) == 4
    ensures var m' := SetEntry(m, t, p.i, Entry(d, flags));
            Lookup(m', root, q) == if root == roles[t].root && q == p then Some(Entry(d, flags)) else Lookup(m, root, q)
  {
    var m' := SetEntry(m, t, p.i, Entry(d, flags));
    var grown := roles[d := ChildRole(roles, t, p.i)];
    assert m[d := m[d]] == m;
    LinkFrame(m, roles, t, p.i, d, m[d], flags);
    assert FrameOk(m, roles, t);
    if root == roles[t].root && q == p {
      LookupIsPlacement(m', grown, root, p, d);
    } else {
      forall f | Placed(roles, root, q, f)
        ensures EntryAt(m', grown[f].parent, q.i) == EntryAt(m, roles[f].parent, q.i)
      {
        assert FrameOk(m, roles, f) && ParentOk(m, roles, f);
      }
      SamePlaceSameLookup(m, roles, m', grown, root, q);
    }
  }

  lemma LinkLeafStep(s: Phys, roles: Roles, t: nat, i: nat, d: nat, flags: Flags)
    requires Inv(s, roles) && t in roles && roles[t].depth == 3 && UserStep(roles[t].path, i) && FreshData(s, roles, d)
    requires !PresentAt(s.mem, t, i) && flags.present
    ensures var u := Phys(s.used, SetEntry(s.mem, t, i, Entry(d, flags)));
            var grown := roles[d := ChildRole(roles, t, i)];
            Inv(u, grown) && Grows(s, roles, u, grown, roles[t].root, d, true)
  {
    assert s.mem[d := s.mem[d]] == s.mem;
    LinkFrame(s.mem, roles, t, i, d, s.mem[d], flags);
  }

  lemma ExtendsThenGrows(s: Phys, r: Roles, t: Phys, r': Roles, u: Phys, r'': Roles, root: nat, d: nat, linked: bool)
    requires Extends(s, r, t, r', root) && Grows(t, r', u, r'', root, d, linked)
    requires Held(s.used, r) && FreshData(s, r, d)
    ensures Grows(s, r, u, r'', root, d, linked)
  {
  }

  /** From (s, roles) to (t, grown) only tables of `root`, and page `d` if `linked`, were added. */
  ghost predicate Grows(s: Phys, roles: Roles, t: Phys, grown: Roles, root: nat, d: nat, linked: bool) {
    && |t.mem| == |s.mem| && |t.used| == |s.used|
    && (forall f :: f in roles ==> f in grown && grown[f] == roles[f])
    && (forall f :: f in grown && f !in roles ==> grown[f].root == root)
    && (forall f :: f in grown && f !in roles && f != d ==> 1 <= grown[f].depth <= 3 && f < |s.used| && !s.used[f])
    && (d in grown <==> linked)
    && (forall f: nat :: f < |s.used| ==> t.used[f] == (s.used[f] || f in grown))
    && (forall f: nat ::
          f < |s.mem| && f < |s.used| && s.used[f] && (f in roles ==> roles[f].depth == 4 || roles[f].root != root) ==>
          t.mem[f] == s.mem[f])
  }

  /** `map_page_inner` keeps the tree; a success places `d` at its page. */
  lemma MapPageStep(s: Phys, roles: Roles, root: nat, p: Path, d: nat, flags: Flags) returns (grown: Roles)
    requires Inv(s, roles) && IsRoot(roles, root) && UserPath(p) && Len(p) == 4 && FreshData(s, roles, d)
    ensures var (t, ok) := MapPage(s, root, p, d, flags);
            && Inv(t, grown) && Grows(s, roles, t, grown, root, d, ok)
            && (ok ==> Placed(grown, root, p, d))
            && (forall f :: f in grown && f !in roles && f != d ==> OnWay(grown[f].path, p.up))
  {
    var tf := TableFlags(flags.user);
    var made := EnsureStep(s, roles, root, p.up, tf);
    var (s1, t) := Ensure(s, root, p.up, tf);
    grown := made;
    if MapPage(s, root, p, d, flags).1 {
      LinkLeafStep(s1, made, t.value, p.i, d, flags.(present := true));
      grown := made[d := ChildRole(made, t.value, p.i)];
    }
    ExtendsThenGrows(s, roles, s1, made, MapPage(s, root, p, d, flags).0, grown, root, d, MapPage(s, root, p, d, flags).1);
  }

  lemma MapPageLookup(s: Phys, roles: Roles, root: nat, p: Path, d: nat, flags: Flags, other: nat, q: Path)
    requires Inv(s, roles) && IsRoot(roles, root) && UserPath(p) && Len(p) == 4 && FreshData(s, roles, d)
    requires IsRoot(roles, other) && UserPath(q) && Len(q) == 4
    ensures var (t, ok) := MapPage(s, root, p, d, flags);
            Lookup(t.mem, other, q) ==
            if ok && other == root && q == p then Some(Entry(d, flags.(present := true))) else Lookup(s.mem, other, q)
  {
    var tf := TableFlags(flags.user);
    var grown := EnsureStep(s, roles, root, p.up, tf);
    var (s1, t) := Ensure(s, root, p.up, tf);
    ExtendsKeepsLookup(s, roles, s1, grown, root, other, q);
    if MapPage(s, root, p, d, flags).1 {
      LinkLeafLookup(s1.mem, grown, t.value, p, d, flags.(present := true), other, q);
    }
  }

  lemma MapPageOutcome(s: Phys, roles: Roles, root: nat, p: Path, d: nat, flags: Flags)
    requires Inv(s, roles) && IsRoot(roles, root) && UserPath(p) && Len(p) == 4
    ensures MapPage(s, root, p, d, flags).1 <==>
            Lookup(s.mem, root, p).None? && Missing(s.mem, root, p.up) <= Pmm.CountFree(s.used)
  {
    var tf := TableFlags(flags.user);
    EnsureCount(s, roles, root, p.up, tf);
    EnsureFinds(s, root, p.up, tf);
  }

  /** `map_page_inner` on the plain maps: a success adds exactly its page to its space, a failure
      changes no translation, and no other space is affected either way. It succeeds exactly
      when the page is not mapped and enough frames are free for the missing tables. */
  lemma MapPageLaw(s: Phys, roles: Roles, root: nat, v: nat, d: nat, flags: Flags, other: nat)
    requires Inv(s, roles) && IsRoot(roles, root) && UserPage(v) && FreshData(s, roles, d)
    requires IsRoot(roles, other)
    ensures var (t, ok) := MapPage(s, root, PathOf(v), d, flags);
            && PageMap(t.mem, other) ==
                 (if ok && other == root then PageMap(s.mem, root)[v := Entry(d, flags.(present := true))]
                  else PageMap(s.mem, other))
            && (ok <==> v !in PageMap(s.mem, root) && Missing(s.mem, root, PathOf(v).up) <= Pmm.CountFree(s.used))
  {
    var p := PathOf(v);
    PathOfPage(v);
    MapPageOutcome(s, roles, root, p, d, flags);
    var (t, ok) := MapPage(s, root, p, d, flags);
    forall q | UserPath(q) && Len(q) == 4
      ensures Lookup(t.mem, other, q) ==
              if ok && other == root && q == p then Some(Entry(d, flags.(present := true))) else Lookup(s.mem, other, q)
    {
      MapPageLookup(s, roles, root, p, d, flags, other, q);
    }
    if ok && other == root {
      OneLookupChanged(s.mem, t.mem, root, v, Some(Entry(d, flags.(present := true))));
    } else {
      SameLookupsSameMap(s.mem, t.mem, other);
    }
  }

  // ---------------------------------------------------------------------------------------
  // Unmapping a page
  // ---------------------------------------------------------------------------------------

  lemma OnePerPlace(mem: seq<Frame>, roles: Roles, root: nat, p: Path, f: nat, g: nat)
    requires Tree(mem, roles) && Placed(roles, root, p, f) && Placed(roles, root, p, g)
    ensures f == g
  {
    WalkUp(mem, roles, f);
    WalkUp(mem, roles, g);
  }

  /** The frame found for a mapped page is the leaf placed there, and unmapping unlinks it. */
  lemma UnmapFindsLeaf(s: Phys, roles: Roles, root: nat, p: Path)
    requires Tree(s.mem, roles) && IsRoot(roles, root) && UserPath(p) && Len(p) == 4 && Lookup(s.mem, root, p).Some?
    ensures var (t, d) := UnmapPage(s, root, p);
            && Placed(roles, root, p, d) && Childless(s.mem, roles, d)
            && t == Phys(s.used, Unlinked(s.mem, roles, d)) && d == Lookup(s.mem, root, p).value.frame
            && 0 < d < |s.mem| && s.mem[d].Data?
  {
    var d := UnmapPage(s, root, p).1;
    LookupIsPlacement(s.mem, roles, root, p, d);
    assert FrameOk(s.mem, roles, d) && ParentOk(s.mem, roles, d);
    WalkUp(s.mem, roles, roles[d].parent);
  }

  lemma UnmapLookup(s: Phys, roles: Roles, root: nat, p: Path, other: nat, q: Path)
    requires Tree(s.mem, roles) && IsRoot(roles, root) && UserPath(p) && Len(p) == 4 && Lookup(s.mem, root, p).Some?
    requires IsRoot(roles, other) && UserPath(q) && Len(q) == 4
    ensures Lookup(UnmapPage(s, root, p).0.mem, other, q) ==
            if other == root && q == p then None else Lookup(s.mem, other, q)
  {
    var (t, d) := UnmapPage(s, root, p);
    UnmapFindsLeaf(s, roles, root, p);
    UnlinkFrame(s.mem, roles, d);
    var rest := roles - {d};
    if other == root && q == p {
      if Lookup(t.mem, root, p).Some? {
        var f := Lookup(t.mem, root, p).value.frame;
        LookupIsPlacement(t.mem, rest, root, p, f);
        OnePerPlace(s.mem, roles, root, p, d, f);
      }
    } else {
      forall f | Placed(roles, other, q, f)
        ensures EntryAt(t.mem, roles[f].parent, q.i) == EntryAt(s.mem, roles[f].parent, q.i)
      {
        assert FrameOk(s.mem, roles, f) && ParentOk(s.mem, roles, f);
        assert FrameOk(s.mem, roles, d) && ParentOk(s.mem, roles, d);
      }
      SamePlaceSameLookup(s.mem, roles, t.mem, rest, other, q);
    }
  }

  /** `vmm_unmap_page` keeps the tree; the frame it returns is still allocated and in no space. */
  lemma UnmapPageStep(s: Phys, roles: Roles, root: nat, p: Path)
    requires Inv(s, roles) && IsRoot(roles, root) && UserPath(p) && Len(p) == 4
    ensures var (t, d) := UnmapPage(s, root, p);
            && Inv(t, roles - {d})
            && (Lookup(s.mem, root, p).Some? ==> Placed(roles, root, p, d) && FreshData(t, roles - {d}, d))
            && (Lookup(s.mem, root, p).None? ==> t == s && d == 0 && d !in roles)
            && (forall f: nat :: f < |s.mem| && (s.mem[f].Data? || f !in roles) ==> t.mem[f] == s.mem[f])
  {
    var (t, d) := UnmapPage(s, root, p);
    if Lookup(s.mem, root, p).Some? {
      UnmapFindsLeaf(s, roles, root, p);
      UnlinkFrame(s.mem, roles, d);
      assert ParentOk(s.mem, roles, d) by { assert FrameOk(s.mem, roles, d); }
    } else {
      assert 0 in roles ==> FrameOk(s.mem, roles, 0);
      assert roles - {0} == roles;
    }
  }

  /** `vmm_unmap_page` on the plain maps: a mapped page loses exactly its translation and its frame
      is returned; an unmapped page changes nothing; no other space is affected. */
  lemma UnmapPageLaw(s: Phys, roles: Roles, root: nat, v: nat, other: nat)
    requires Inv(s, roles) && IsRoot(roles, root) && UserPage(v) && IsRoot(roles, other)
    ensures var (t, d) := UnmapPage(s, root, PathOf(v));
            var m := PageMap(s.mem, root);
            && d == (if v in m then m[v].frame else 0)
            && PageMap(t.mem, other) == (if other == root then m - {v} else PageMap(s.mem, other))
  {
    var p := PathOf(v);
    var (t, d) := UnmapPage(s, root, p);
    var m := PageMap(s.mem, root);
    PathOfPage(v);
    assert v in m <==> Lookup(s.mem, root, p).Some?;
    if v in m {
      forall q | UserPath(q) && Len(q) == 4
        ensures Lookup(t.mem, other, q) == if other == root && q == p then None else Lookup(s.mem, other, q)
      {
        UnmapLookup(s, roles, root, p, other, q);
      }
      if other == root {
        OneLookupChanged(s.mem, t.mem, root, v, None);
      } else {
        SameLookupsSameMap(s.mem, t.mem, other);
      }
    }
  }
}

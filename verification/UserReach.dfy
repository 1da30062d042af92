/** Which pages user code can reach: the entries above the last level on the way to a page must let it
    pass, and let it write where the last one does. */
module UserReach {
  import opened Basics
  import opened Paging
  import opened PageTree
  import opened PageMapLaws
  import opened Spaces
  import Pmm

  /** The entry of a page that user code may read, write if `write` holds, and execute if `exec` does. */
  predicate Grants(e: Entry, write: bool, exec: bool) {
    e.flags.present && e.flags.user && e.flags.writable == write && e.flags.noExec == !exec
  }

  /** The entry is present and lets user code pass, to read and to write. */
  predicate Lets(e: Entry) {
    e.flags.present && e.flags.user && e.flags.writable
  }

  /** Every entry on the way from the root to `p` lets user code pass. */
  predicate Opens(mem: seq<Frame>, root: nat, p: Path) {
    p.Sub? ==> Opens(mem, root, p.up) && Lookup(mem, root, p).Some? && Lets(Lookup(mem, root, p).value)
  }

  /** User code gets as far as the last-level entry of page `v`. */
  predicate Reachable(mem: seq<Frame>, root: nat, v: nat) {
    Opens(mem, root, PathOf(v).up)
  }

  /** In terms of the entries that the processor reads, from the root down. */
  lemma ReachableMeans(mem: seq<Frame>, root: nat, v: nat)
    ensures Reachable(mem, root, v) <==>
            var e4 := EntryAt(mem, root, L4(v));
            var e3 := EntryAt(mem, e4.frame, L3(v));
            var e2 := EntryAt(mem, e3.frame, L2(v));
            Lets(e4) && Lets(e3) && Lets(e2)
  {
    PathIndices(v);
    var p := PathOf(v).up;
    var e4 := EntryAt(mem, root, L4(v));
    var e3 := EntryAt(mem, e4.frame, L3(v));
    assert Opens(mem, root, p) ==> Opens(mem, root, p.up);
    assert Opens(mem, root, p.up) ==> Opens(mem, root, p.up.up);
    OpensNext(mem, root, p.up.up, root);
    if Opens(mem, root, p.up.up) {
      OpensNext(mem, root, p.up, e4.frame);
      if Opens(mem, root, p.up) { OpensNext(mem, root, p, e3.frame); }
    }
  }

  lemma OpensNext(mem: seq<Frame>, root: nat, q: Path, t: nat)
    requires q.Sub? && Opens(mem, root, q.up) && Walk(mem, root, q.up) == Some(t)
    ensures Opens(mem, root, q) <==> Lets(EntryAt(mem, t, q.i))
    ensures Opens(mem, root, q) ==> Walk(mem, root, q) == Some(EntryAt(mem, t, q.i).frame)
  {
  }

  /** The place of a table below the root. */
  predicate Inner(q: Path) {
    UserPath(q) && 1 <= Len(q) <= 3
  }

  /** Whatever tables there are let user code pass. */
  ghost predicate AllOpen(mem: seq<Frame>, root: nat) {
    forall q {:trigger Inner(q)} :: Inner(q) && Lookup(mem, root, q).Some? ==> Lets(Lookup(mem, root, q).value)
  }

  /** The entries of the tables there are stay as they are. */
  ghost predicate InnerKept(m: seq<Frame>, m': seq<Frame>, root: nat) {
    forall q {:trigger Inner(q)} :: Inner(q) && Lookup(m, root, q).Some? ==> Lookup(m', root, q) == Lookup(m, root, q)
  }

  /** And those of new tables have these flags. */
  ghost predicate InnerAdded(m: seq<Frame>, m': seq<Frame>, root: nat, flags: Flags) {
    forall q {:trigger Inner(q)} :: Inner(q) && Lookup(m, root, q).None? && Lookup(m', root, q).Some? ==>
      Lookup(m', root, q).value.flags == flags
  }

  ghost predicate InnerSame(m: seq<Frame>, m': seq<Frame>, root: nat) {
    forall q {:trigger Inner(q)} :: Inner(q) ==> Lookup(m', root, q) == Lookup(m, root, q)
  }

  /** The entry that leads to a frame of the tree. */
  function EntryOf(mem: seq<Frame>, roles: Roles, f: nat): Entry
    requires f in roles
  {
    if roles[f].path.Sub? then EntryAt(mem, roles[f].parent, roles[f].path.i) else EMPTY
  }

  ghost predicate InnerOf(roles: Roles, root: nat, f: nat) {
    f in roles && roles[f].root == root && 1 <= roles[f].depth <= 3
  }

  lemma InnerPlaced(mem: seq<Frame>, roles: Roles, root: nat, q: Path)
    requires Tree(mem, roles) && IsRoot(roles, root) && Inner(q) && Lookup(mem, root, q).Some?
    ensures var f := Lookup(mem, root, q).value.frame;
            InnerOf(roles, root, f) && Placed(roles, root, q, f) && EntryOf(mem, roles, f) == Lookup(mem, root, q).value
  {
    var f := Lookup(mem, root, q).value.frame;
    LookupIsPlacement(mem, roles, root, q, f);
  }

  /** What changes in the tables of a space, told by the frames they are in. */
  lemma InnerStep(m: seq<Frame>, roles: Roles, m': seq<Frame>, roles': Roles, root: nat, flags: Flags)
    requires Tree(m, roles) && Tree(m', roles') && IsRoot(roles, root) && IsRoot(roles', root)
    requires forall f :: InnerOf(roles, root, f) ==> f in roles' && roles'[f] == roles[f] && EntryOf(m', roles', f) == EntryOf(m, roles, f)
    requires forall f :: InnerOf(roles', root, f) && f !in roles ==> EntryOf(m', roles', f).flags == flags
    requires forall f :: InnerOf(roles', root, f) && f in roles ==> roles'[f] == roles[f]
    ensures InnerKept(m, m', root) && InnerAdded(m, m', root, flags)
    ensures (forall f :: InnerOf(roles', root, f) ==> f in roles) ==> InnerSame(m, m', root)
  {
    forall q | Inner(q) && Lookup(m, root, q).Some? ensures Lookup(m', root, q) == Lookup(m, root, q) {
      InnerPlaced(m, roles, root, q);
      LookupIsPlacement(m', roles', root, q, Lookup(m, root, q).value.frame);
    }
    forall q | Inner(q) && Lookup(m, root, q).None? && Lookup(m', root, q).Some?
      ensures Lookup(m', root, q).value.flags == flags && Lookup(m', root, q).value.frame !in roles
      ensures InnerOf(roles', root, Lookup(m', root, q).value.frame)
    {
      InnerPlaced(m', roles', root, q);
      LookupIsPlacement(m, roles, root, q, Lookup(m', root, q).value.frame);
    }
  }

  // ---------------------------------------------------------------------------------------
  // Mapping and unmapping a page
  // ---------------------------------------------------------------------------------------

  lemma InnerTrans(a: seq<Frame>, b: seq<Frame>, c: seq<Frame>, root: nat, flags: Flags)
    requires InnerKept(a, b, root) && InnerAdded(a, b, root, flags) && InnerKept(b, c, root) && InnerAdded(b, c, root, flags)
    ensures InnerKept(a, c, root) && InnerAdded(a, c, root, flags)
  {
  }

  /** The entry that `ensure_table` leaves behind is the old one, or a new one with these flags. */
  lemma EnsureTableEntry(s: Phys, roles: Roles, parent: nat, i: nat, flags: Flags, t: Phys, g: nat, j: nat)
    requires Inv(s, roles) && parent in roles && roles[parent].depth < 3 && t == EnsureTable(s, parent, i, flags).0
    requires g in roles && j < ENTRIES && roles[g].depth < 3
    ensures PresentAt(s.mem, g, j) ==> EntryAt(t.mem, g, j) == EntryAt(s.mem, g, j)
    ensures !PresentAt(s.mem, g, j) && PresentAt(t.mem, g, j) ==> EntryAt(t.mem, g, j).flags == flags
  {
    Pmm.AllocFirstFit(s.used, 1);
    assert FrameOk(s.mem, roles, parent) && FrameOk(s.mem, roles, g);
    var (s1, f) := AllocFrame(s, ZeroTable());
    if !PresentAt(s.mem, parent, i) && f != 0 {
      assert Pmm.FreeRun(s.used, f, 1) && !s.used[f] && f != parent && f != g;
      assert t.mem == SetEntry(s.mem[f := ZeroTable()], parent, i, Entry(f, flags));
    }
  }

  lemma EnsureTableInner(s: Phys, roles: Roles, parent: nat, i: nat, flags: Flags, t: Phys, grown: Roles, root: nat)
    requires Inv(s, roles) && parent in roles && roles[parent].depth < 3 && t == EnsureTable(s, parent, i, flags).0
    requires Inv(t, grown) && Extends(s, roles, t, grown, roles[parent].root) && IsRoot(roles, root)
    requires forall f :: f in grown && f !in roles ==> grown[f] == ChildRole(roles, parent, i)
    ensures InnerKept(s.mem, t.mem, root) && InnerAdded(s.mem, t.mem, root, flags)
  {
    forall f | InnerOf(roles, root, f) ensures EntryOf(t.mem, grown, f) == EntryOf(s.mem, roles, f) {
      assert FrameOk(s.mem, roles, f) && ParentOk(s.mem, roles, f);
      EnsureTableEntry(s, roles, parent, i, flags, t, roles[f].parent, roles[f].path.i);
    }
    forall f | InnerOf(grown, root, f) && f !in roles ensures EntryOf(t.mem, grown, f).flags == flags {
      assert FrameOk(t.mem, grown, f) && ParentOk(t.mem, grown, f);
      assert FrameOk(s.mem, roles, parent) && ChildOk(s.mem, roles, parent, i);
      EnsureTableEntry(s, roles, parent, i, flags, t, parent, i);
    }
    InnerStep(s.mem, roles, t.mem, grown, root, flags);
  }

  lemma {:induction false} EnsureInner(s: Phys, roles: Roles, root: nat, p: Path, flags: Flags, other: nat) returns (grown: Roles)
    requires Inv(s, roles) && IsRoot(roles, root) && UserPath(p) && Len(p) <= 3 && IsRoot(roles, other)
    requires flags.present && !flags.huge
    ensures var (t, r) := Ensure(s, root, p, flags);
            && Inv(t, grown) && Extends(s, roles, t, grown, root) && (r.Some? ==> Placed(grown, root, p, r.value))
            && InnerKept(s.mem, t.mem, other) && InnerAdded(s.mem, t.mem, other, flags)
  {
    if p.Top? {
      grown := roles;
      assert FrameOk(s.mem, roles, root);
    } else {
      grown := EnsureInner(s, roles, root, p.up, flags, other);
      var (s1, t) := Ensure(s, root, p.up, flags);
      if t.Some? {
        var r1 := grown;
        grown := EnsureTableStep(s1, r1, t.value, p.i, flags);
        var s2 := Ensure(s, root, p, flags).0;
        EnsureTableInner(s1, r1, t.value, p.i, flags, s2, grown, other);
        ExtendsTrans(s, roles, s1, r1, s2, grown, root);
        InnerTrans(s.mem, s1.mem, s2.mem, other, flags);
      }
    }
  }

  /** A write to a table of the last level changes no entry above that level. */
  lemma LeafWriteInner(m: seq<Frame>, roles: Roles, f: nat, i: nat, e: Entry, m': seq<Frame>, roles': Roles, root: nat)
    requires Tree(m, roles) && Tree(m', roles') && IsRoot(roles, root)
    requires m' == SetEntry(m, f, i, e) && f in roles && roles[f].depth == 3
    requires forall g :: g in roles && roles[g].depth < 4 ==> g in roles' && roles'[g] == roles[g]
    requires forall g :: g in roles' && roles'[g].depth < 4 ==> g in roles && roles[g] == roles'[g]
    ensures InnerSame(m, m', root)
  {
    forall g | InnerOf(roles, root, g) ensures EntryOf(m', roles', g) == EntryOf(m, roles, g) {
      assert FrameOk(m, roles, g) && ParentOk(m, roles, g);
    }
    InnerStep(m, roles, m', roles', root, NO_FLAGS);
  }

  /** `map_page_inner` in any space: the tables there are keep their entries, and new ones let user code pass
      exactly if the page is to. */
  lemma MapPageInner(s: Phys, roles: Roles, root: nat, v: nat, d: nat, flags: Flags, other: nat)
    requires Inv(s, roles) && IsRoot(roles, root) && UserPage(v) && FreshData(s, roles, d) && IsRoot(roles, other)
    ensures var t := MapPage(s, root, PathOf(v), d, flags).0;
            InnerKept(s.mem, t.mem, other) && InnerAdded(s.mem, t.mem, other, TableFlags(flags.user))
  {
    var p, tf := PathOf(v), TableFlags(flags.user);
    PathOfPage(v);
    var made := EnsureInner(s, roles, root, p.up, tf, other);
    var (s1, t) := Ensure(s, root, p.up, tf);
    if MapPage(s, root, p, d, flags).1 {
      var f := flags.(present := true);
      LinkLeafStep(s1, made, t.value, p.i, d, f);
      var grown := made[d := ChildRole(made, t.value, p.i)];
      var u := MapPage(s, root, p, d, flags).0;
      LeafWriteInner(s1.mem, made, t.value, p.i, Entry(d, f), u.mem, grown, other);
    }
  }

  lemma UnmapPageInner(s: Phys, roles: Roles, root: nat, v: nat, other: nat)
    requires Inv(s, roles) && IsRoot(roles, root) && UserPage(v) && IsRoot(roles, other)
    ensures InnerSame(s.mem, UnmapPage(s, root, PathOf(v)).0.mem, other)
  {
    var p := PathOf(v);
    PathOfPage(v);
    var (t, d) := UnmapPage(s, root, p);
    UnmapPageStep(s, roles, root, p);
    var f := Walk(s.mem, root, p.up);
    if Lookup(s.mem, root, p).Some? {
      WalkDown(s.mem, roles, root, p.up);
      LeafWriteInner(s.mem, roles, f.value, p.i, EMPTY, t.mem, roles - {d}, other);
    }
  }

  /** What happens in one space leaves the tables of the others alone. */
  lemma OtherInner(s: Phys, roles: Roles, t: Phys, after: Roles, root: nat, other: nat)
    requires Inv(s, roles) && Inv(t, after) && OnlySpace(s, roles, t, after, root) && IsRoot(roles, other) && other != root
    ensures IsRoot(after, other) && InnerSame(s.mem, t.mem, other)
  {
    assert FrameOk(s.mem, roles, other);
    forall f | InnerOf(roles, other, f) ensures EntryOf(t.mem, after, f) == EntryOf(s.mem, roles, f) {
      assert FrameOk(s.mem, roles, f) && ParentOk(s.mem, roles, f);
      assert ElsewhereUsed(s, roles, root, roles[f].parent);
    }
    InnerStep(s.mem, roles, t.mem, after, other, NO_FLAGS);
  }

  /** A write to frames outside the tree, or to data, changes no table. */
  lemma DataInner(m: seq<Frame>, roles: Roles, m': seq<Frame>, root: nat)
    requires Tree(m, roles) && Tree(m', roles) && IsRoot(roles, root)
    requires forall f :: f in roles && roles[f].depth < 4 && f < |m| ==> f < |m'| && m'[f] == m[f]
    ensures InnerSame(m, m', root)
  {
    forall f | InnerOf(roles, root, f) ensures EntryOf(m', roles, f) == EntryOf(m, roles, f) {
      assert FrameOk(m, roles, f) && ParentOk(m, roles, f) && FrameOk(m, roles, roles[f].parent);
    }
    InnerStep(m, roles, m', roles, root, NO_FLAGS);
  }

  /** The same for a page on a fresh frame, had or not. */
  lemma MapFreshInner(s: Phys, roles: Roles, root: nat, v: nat, flags: Flags, other: nat)
    requires Inv(s, roles) && IsRoot(roles, root) && UserPage(v) && IsRoot(roles, other)
    ensures var t := MapFresh(s, root, PathOf(v), flags).0;
            InnerKept(s.mem, t.mem, other) && InnerAdded(s.mem, t.mem, other, TableFlags(flags.user))
  {
    AllocPageStep(s, roles);
    var (s1, d) := AllocFrame(s, ZeroPage());
    if d != 0 {
      DataInner(s.mem, roles, s1.mem, other);
      MapPageInner(s1, roles, root, v, d, flags, other);
    }
  }

  // ---------------------------------------------------------------------------------------
  // What can be reached
  // ---------------------------------------------------------------------------------------

  /** The entries there are on the way to `p` let user code pass. */
  predicate Clear(mem: seq<Frame>, root: nat, p: Path) {
    p.Sub? ==> Clear(mem, root, p.up) && (Lookup(mem, root, p).Some? ==> Lets(Lookup(mem, root, p).value))
  }

  lemma {:induction false} WalkShort(mem: seq<Frame>, root: nat, p: Path)
    requires p.Sub?
    ensures Walk(mem, root, p).Some? <==> Lookup(mem, root, p).Some?
    ensures Walk(mem, root, p).Some? ==> Walk(mem, root, p.up).Some?
  {
  }

  /** The way to a place that now exists opens exactly if what there was of it was open, and nothing had to
      be made or what was made is open. */
  lemma {:induction false} OpensAfter(m: seq<Frame>, m': seq<Frame>, root: nat, p: Path, user: bool)
    requires UserPath(p) && Len(p) <= 3 && Walk(m', root, p).Some?
    requires InnerKept(m, m', root) && InnerAdded(m, m', root, TableFlags(user))
    ensures Opens(m', root, p) <==> Clear(m, root, p) && (user || Walk(m, root, p).Some?)
  {
    if p.Sub? {
      WalkShort(m', root, p);
      WalkShort(m, root, p);
      OpensAfter(m, m', root, p.up, user);
      LookupPresent(m, root, p);
      LookupPresent(m', root, p);
      assert Inner(p);
    }
  }

  lemma LookupPresent(mem: seq<Frame>, root: nat, p: Path)
    requires p.Sub?
    ensures Lookup(mem, root, p).Some? ==> Lookup(mem, root, p).value.flags.present
  {
  }

  /** When a page has been mapped, user code reaches it exactly if the tables that were there let it pass
      and, should some have been missing, the page is for user code. */
  lemma MappedReach(s: Phys, roles: Roles, root: nat, v: nat, d: nat, flags: Flags)
    requires Inv(s, roles) && IsRoot(roles, root) && UserPage(v) && FreshData(s, roles, d)
    requires MapPage(s, root, PathOf(v), d, flags).1
    ensures Reachable(MapPage(s, root, PathOf(v), d, flags).0.mem, root, v) <==>
            Clear(s.mem, root, PathOf(v).up) && (flags.user || Walk(s.mem, root, PathOf(v).up).Some?)
  {
    var p, t := PathOf(v), MapPage(s, root, PathOf(v), d, flags).0;
    PathOfPage(v);
    MapPageLaw(s, roles, root, v, d, flags, root);
    assert v in PageMap(t.mem, root);
    MapPageInner(s, roles, root, v, d, flags, root);
    OpensAfter(s.mem, t.mem, root, p.up, flags.user);
  }

  lemma {:induction false} OpensKept(m: seq<Frame>, m': seq<Frame>, root: nat, p: Path)
    requires UserPath(p) && Len(p) <= 3 && InnerKept(m, m', root)
    ensures Opens(m, root, p) ==> Opens(m', root, p)
    ensures Walk(m, root, p).Some? ==> Walk(m', root, p).Some? && (Opens(m', root, p) <==> Opens(m, root, p))
  {
    if p.Sub? {
      OpensKept(m, m', root, p.up);
      WalkShort(m, root, p);
      WalkShort(m', root, p);
      assert Inner(p);
    }
  }

  /** A page that user code reaches it reaches after any mapping of any page in any space; and where the
      tables for a page exist a mapping does not change whether it is reached. */
  lemma MapKeepsReach(s: Phys, roles: Roles, root: nat, v: nat, d: nat, flags: Flags, other: nat, w: nat)
    requires Inv(s, roles) && IsRoot(roles, root) && UserPage(v) && FreshData(s, roles, d)
    requires IsRoot(roles, other) && UserPage(w)
    ensures var t := MapPage(s, root, PathOf(v), d, flags).0;
            && (Reachable(s.mem, other, w) ==> Reachable(t.mem, other, w))
            && (Walk(s.mem, other, PathOf(w).up).Some? ==> (Reachable(t.mem, other, w) <==> Reachable(s.mem, other, w)))
  {
    PathOfPage(w);
    MapPageInner(s, roles, root, v, d, flags, other);
    OpensKept(s.mem, MapPage(s, root, PathOf(v), d, flags).0.mem, other, PathOf(w).up);
  }

  lemma {:induction false} OpensSame(m: seq<Frame>, m': seq<Frame>, root: nat, p: Path)
    requires UserPath(p) && Len(p) <= 3 && InnerSame(m, m', root)
    ensures Opens(m', root, p) <==> Opens(m, root, p)
  {
    if p.Sub? {
      OpensSame(m, m', root, p.up);
      assert Inner(p);
    }
  }

  /** No unmapping changes which pages user code reaches. */
  lemma UnmapKeepsReach(s: Phys, roles: Roles, root: nat, v: nat, other: nat, w: nat)
    requires Inv(s, roles) && IsRoot(roles, root) && UserPage(v) && IsRoot(roles, other) && UserPage(w)
    ensures Reachable(UnmapPage(s, root, PathOf(v)).0.mem, other, w) <==> Reachable(s.mem, other, w)
  {
    PathOfPage(w);
    UnmapPageInner(s, roles, root, v, other);
    OpensSame(s.mem, UnmapPage(s, root, PathOf(v)).0.mem, other, PathOf(w).up);
  }

  lemma {:induction false} AllOpenWay(mem: seq<Frame>, root: nat, p: Path)
    requires AllOpen(mem, root) && UserPath(p) && Len(p) <= 3 && Walk(mem, root, p).Some?
    ensures Opens(mem, root, p)
  {
    if p.Sub? {
      WalkShort(mem, root, p);
      AllOpenWay(mem, root, p.up);
      assert Inner(p);
    }
  }

  /** User code reaches every page that is mapped. */
  ghost predicate AllReached(mem: seq<Frame>, root: nat) {
    forall v :: v in PageMap(mem, root) ==> Reachable(mem, root, v)
  }

  /** If all tables of a space let user code pass, it reaches every page that is mapped. */
  lemma AllReachable(mem: seq<Frame>, root: nat)
    requires AllOpen(mem, root)
    ensures AllReached(mem, root)
  {
    forall v | v in PageMap(mem, root) ensures Reachable(mem, root, v) {
      PathOfPage(v);
      AllOpenWay(mem, root, PathOf(v).up);
    }
  }

  lemma AddedOpen(m: seq<Frame>, m': seq<Frame>, root: nat)
    requires AllOpen(m, root) && InnerKept(m, m', root) && InnerAdded(m, m', root, TableFlags(true))
    ensures AllOpen(m', root)
  {
    forall q | Inner(q) && Lookup(m', root, q).Some? ensures Lets(Lookup(m', root, q).value) {
      LookupPresent(m', root, q);
    }
  }

  lemma SameOpen(m: seq<Frame>, m': seq<Frame>, root: nat)
    requires AllOpen(m, root) && InnerSame(m, m', root)
    ensures AllOpen(m', root)
  {
  }

  /** A new space has no tables below its root yet. */
  lemma NewRootOpen(s: Phys, roles: Roles, kernel: nat)
    requires Inv(s, roles) && CreateRoot(s, kernel).1 != 0
    ensures AllOpen(CreateRoot(s, kernel).0.mem, CreateRoot(s, kernel).1)
  {
    Pmm.AllocOneSucceeds(s.used);
    var (t, f) := CreateRoot(s, kernel);
    forall i: nat | 0 < i < ENTRIES ensures !PresentAt(t.mem, f, i) {}
    forall q | Inner(q) ensures Lookup(t.mem, f, q).None? {
      EmptyRootWalk(t.mem, f, q);
      WalkShort(t.mem, f, q);
    }
  }
}

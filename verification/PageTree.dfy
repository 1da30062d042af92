/** The tree that the page tables form, and the plain map they stand for. */
module PageTree {
  import opened Basics
  import opened Align
  import opened Paging

  /** Where a frame sits in an address space: `depth` 0 is the root table, 1 to 3 the inner
      tables and 4 a mapped page. */
  datatype Role = Role(root: nat, depth: nat, path: Path, parent: nat)

  type Roles = map<nat, Role>

  /** The root's slot 0 is shared with the kernel and belongs to no user space. */
  predicate UserStep(up: Path, i: nat) {
    i < ENTRIES && (up.Top? ==> i != 0)
  }

  predicate UserPath(p: Path) {
    p.Sub? ==> UserPath(p.up) && UserStep(p.up, p.i)
  }

  function Len(p: Path): nat {
    if p.Top? then 0 else Len(p.up) + 1
  }

  /** `p` is met on the way down to `q`, or is `q` itself. */
  predicate OnWay(p: Path, q: Path) {
    q.Sub? && (p == q || OnWay(p, q.up))
  }

  /** Pages outside the root's slot 0. */
  predicate UserPage(v: nat) {
    0x800_0000 <= v < 0x10_0000_0000
  }

  ghost predicate ParentOk(mem: seq<Frame>, roles: Roles, f: nat)
    requires f in roles
  {
    var r := roles[f];
    r.depth > 0 ==>
      && r.path.Sub? && r.parent in roles
      && roles[r.parent].root == r.root && roles[r.parent].depth == r.depth - 1 && roles[r.parent].path == r.path.up
      && UserStep(r.path.up, r.path.i)
      && PresentAt(mem, r.parent, r.path.i) && EntryAt(mem, r.parent, r.path.i).frame == f
  }

  function ChildRole(roles: Roles, parent: nat, i: nat): Role
    requires parent in roles
  {
    Role(roles[parent].root, roles[parent].depth + 1, Sub(roles[parent].path, i), parent)
  }

  ghost predicate ChildOk(mem: seq<Frame>, roles: Roles, f: nat, i: nat)
    requires f in roles
  {
    PresentAt(mem, f, i) && UserStep(roles[f].path, i) ==>
      var e := EntryAt(mem, f, i);
      && e.frame in roles && roles[e.frame] == ChildRole(roles, f, i)
      && (roles[f].depth < 3 ==> !e.flags.huge)
  }

  ghost predicate FrameOk(mem: seq<Frame>, roles: Roles, f: nat)
    requires f in roles
  {
    && 0 < f < |mem|
    && roles[f].depth <= 4
    && (roles[f].depth == 0 ==> roles[f].root == f && roles[f].path.Top?)
    && roles[f].root in roles && roles[roles[f].root].depth == 0
    && (mem[f].Table? <==> roles[f].depth < 4)
    && ParentOk(mem, roles, f)
    && (roles[f].depth < 4 ==> forall i: nat {:trigger ChildOk(mem, roles, f, i)} :: i < ENTRIES ==> ChildOk(mem, roles, f, i))
  }

  /** Every user frame has one place in one space, and the table entries say so both ways. */
  ghost predicate Tree(mem: seq<Frame>, roles: Roles) {
    forall f {:trigger FrameOk(mem, roles, f)} :: f in roles ==> FrameOk(mem, roles, f)
  }

  ghost predicate Held(used: seq<bool>, roles: Roles) {
    forall f :: f in roles ==> f < |used| && used[f]
  }

  ghost predicate Sound(s: Phys) {
    |s.used| == |s.mem| && 0 < |s.mem| && s.used[0]
  }

  ghost predicate Inv(s: Phys, roles: Roles) {
    Sound(s) && Tree(s.mem, roles) && Held(s.used, roles)
  }

  ghost predicate IsRoot(roles: Roles, root: nat) {
    root in roles && roles[root].depth == 0
  }

  ghost predicate Placed(roles: Roles, root: nat, p: Path, f: nat) {
    f in roles && roles[f].root == root && roles[f].path == p && roles[f].depth == Len(p)
  }

  // ---------------------------------------------------------------------------------------
  // The walk and the tree
  // ---------------------------------------------------------------------------------------

  /** Distinct pages have distinct paths, and user pages the user paths of length four. */
  lemma PathOfPage(v: nat)
    requires UserPage(v)
    ensures UserPath(PathOf(v)) && Len(PathOf(v)) == 4
  {
    var p := PathOf(v);
    PathIndices(v);
    assert L4(v) == v / 0x800_0000;
    assert UserPath(p.up.up.up.up) && UserPath(p.up.up.up) && UserPath(p.up.up) && UserPath(p.up);
    assert Len(p.up.up.up) == 1 && Len(p.up.up) == 2 && Len(p.up) == 3;
  }

  lemma PageFromIndices(v: nat)
    requires v < 0x10_0000_0000
    ensures v == ((L4(v) * 512 + L3(v)) * 512 + L2(v)) * 512 + L1(v)
  {
    var a := v / 512;
    var b := a / 512;
    var c := b / 512;
    assert b == v / 0x4_0000 && c == v / 0x800_0000;
  }

  lemma PathOfInjective(v: nat, w: nat)
    requires v < 0x10_0000_0000 && w < 0x10_0000_0000 && PathOf(v) == PathOf(w)
    ensures v == w
  {
    PathIndices(v);
    PathIndices(w);
    PageFromIndices(v);
    PageFromIndices(w);
  }

  /** What the walk finds at `p` is the frame placed at `p`. */
  lemma {:induction false} WalkDown(mem: seq<Frame>, roles: Roles, root: nat, p: Path)
    requires Tree(mem, roles) && IsRoot(roles, root) && UserPath(p) && Len(p) <= 4
    ensures Walk(mem, root, p).Some? ==> Placed(roles, root, p, Walk(mem, root, p).value)
  {
    if p.Top? {
      assert FrameOk(mem, roles, root);
    } else {
      WalkDown(mem, roles, root, p.up);
      var t := Walk(mem, root, p.up);
      if t.Some? { assert FrameOk(mem, roles, t.value) && ChildOk(mem, roles, t.value, p.i); }
    }
  }

  /** Every placed frame is found by the walk to its place. */
  lemma {:induction false} WalkUp(mem: seq<Frame>, roles: Roles, f: nat)
    requires Tree(mem, roles) && f in roles
    ensures Walk(mem, roles[f].root, roles[f].path) == Some(f)
    ensures UserPath(roles[f].path) && Len(roles[f].path) == roles[f].depth
    decreases roles[f].depth
  {
    assert FrameOk(mem, roles, f) && ParentOk(mem, roles, f);
    if roles[f].depth > 0 { WalkUp(mem, roles, roles[f].parent); }
  }

  /** The walk and the placement of frames are the same relation. */
  lemma WalkIsPlacement(mem: seq<Frame>, roles: Roles, root: nat, p: Path, f: nat)
    requires Tree(mem, roles) && IsRoot(roles, root) && UserPath(p) && Len(p) <= 4
    ensures Walk(mem, root, p) == Some(f) <==> Placed(roles, root, p, f)
  {
    WalkDown(mem, roles, root, p);
    if Placed(roles, root, p, f) { WalkUp(mem, roles, f); }
  }

  // ---------------------------------------------------------------------------------------
  // The plain map
  // ---------------------------------------------------------------------------------------

  /** The entry the walk finds for the page at `p`. */
  function Lookup(mem: seq<Frame>, root: nat, p: Path): Option<Entry>
    requires p.Sub?
  {
    var t := Walk(mem, root, p.up);
    if t.None? || !PresentAt(mem, t.value, p.i) then None else Some(EntryAt(mem, t.value, p.i))
  }

  /** An address space as a plain map from page number to entry. */
  ghost function PageMap(mem: seq<Frame>, root: nat): (m: map<nat, Entry>)
    ensures forall v: nat :: v in m <==> UserPage(v) && Lookup(mem, root, PathOf(v)).Some?
    ensures forall v: nat :: v in m ==> m[v] == Lookup(mem, root, PathOf(v)).value
  {
    map v: nat | 0x800_0000 <= v < 0x10_0000_0000 && Lookup(mem, root, PathOf(v)).Some?
      :: Lookup(mem, root, PathOf(v)).value
  }

  lemma LookupIsPlacement(mem: seq<Frame>, roles: Roles, root: nat, p: Path, f: nat)
    requires Tree(mem, roles) && IsRoot(roles, root) && UserPath(p) && p.Sub? && Len(p) <= 4
    ensures Lookup(mem, root, p).Some? && Lookup(mem, root, p).value.frame == f <==> Placed(roles, root, p, f)
    ensures Placed(roles, root, p, f) ==> Lookup(mem, root, p) == Some(EntryAt(mem, roles[f].parent, p.i))
  {
    WalkIsPlacement(mem, roles, root, p, f);
    if Placed(roles, root, p, f) {
      assert FrameOk(mem, roles, f) && ParentOk(mem, roles, f);
      WalkUp(mem, roles, roles[f].parent);
    }
  }

  /** No inner entry met on the way to a user page is a huge one. */
  lemma NoHugeEntry(mem: seq<Frame>, roles: Roles, root: nat, p: Path)
    requires Tree(mem, roles) && IsRoot(roles, root) && UserPath(p) && p.Sub? && Len(p) <= 3
    ensures Lookup(mem, root, p).Some? ==> !Lookup(mem, root, p).value.flags.huge
  {
    WalkDown(mem, roles, root, p.up);
    var t := Walk(mem, root, p.up);
    if t.Some? { assert FrameOk(mem, roles, t.value) && ChildOk(mem, roles, t.value, p.i); }
  }

  /** `vmm_resolve` is a look-up in the plain map: same pages, frame and offset, same flags. */
  lemma ResolveIsLookup(mem: seq<Frame>, roles: Roles, root: nat, virt: U64)
    requires Tree(mem, roles) && IsRoot(roles, root) && UserPage(PageOf(virt))
    ensures Resolve(mem, root, virt) ==
            var m, v := PageMap(mem, root), PageOf(virt);
            if v in m then Some((m[v].frame * PAGE_SIZE + virt % PAGE_SIZE, m[v].flags)) else None
  {
    var v := PageOf(virt);
    var p := PathOf(v);
    PathOfPage(v);
    PathIndices(v);
    NoHugeEntry(mem, roles, root, p.up);
    NoHugeEntry(mem, roles, root, p.up.up);
    assert Walk(mem, root, p.up.up.up.up) == Some(root);
    assert v in PageMap(mem, root) <==> Lookup(mem, root, p).Some?;
  }

  // ---------------------------------------------------------------------------------------
  // Linking and unlinking a frame
  // ---------------------------------------------------------------------------------------

  /** A frame outside the tree, its content fit for its depth, may go under an empty entry. */
  ghost predicate CanLink(mem: seq<Frame>, roles: Roles, parent: nat, i: nat, f: nat, content: Frame, flags: Flags) {
    && parent in roles && roles[parent].depth < 4 && UserStep(roles[parent].path, i)
    && 0 < f < |mem| && f !in roles
    && (if roles[parent].depth == 3 then content.Data? else content == ZeroTable() && !flags.huge)
    && !PresentAt(mem, parent, i) && flags.present
  }

  lemma LinkKeepsOthers(mem: seq<Frame>, roles: Roles, parent: nat, i: nat, f: nat, content: Frame, flags: Flags, g: nat)
    requires Tree(mem, roles) && CanLink(mem, roles, parent, i, f, content, flags)
    requires g in roles
    ensures FrameOk(SetEntry(mem[f := content], parent, i, Entry(f, flags)),
                    roles[f := ChildRole(roles, parent, i)], g)
  {
    var grown := roles[f := ChildRole(roles, parent, i)];
    var m := SetEntry(mem[f := content], parent, i, Entry(f, flags));
    assert FrameOk(mem, roles, parent);
    assert FrameOk(mem, roles, g);
    forall j: nat | grown[g].depth < 4 && j < ENTRIES ensures ChildOk(m, grown, g, j) {
      assert ChildOk(mem, roles, g, j);
    }
    assert ParentOk(m, grown, g) by { assert ParentOk(mem, roles, g); }
  }

  /** Placing a fresh frame under an empty entry keeps the tree. */
  lemma LinkFrame(mem: seq<Frame>, roles: Roles, parent: nat, i: nat, f: nat, content: Frame, flags: Flags)
    requires Tree(mem, roles) && CanLink(mem, roles, parent, i, f, content, flags)
    ensures Tree(SetEntry(mem[f := content], parent, i, Entry(f, flags)), roles[f := ChildRole(roles, parent, i)])
  {
    var grown := roles[f := ChildRole(roles, parent, i)];
    var m := SetEntry(mem[f := content], parent, i, Entry(f, flags));
    forall g | g in grown ensures FrameOk(m, grown, g) {
      if g == f {
        assert FrameOk(mem, roles, parent);
        forall j: nat | j < ENTRIES ensures ChildOk(m, grown, f, j) {}
      } else {
        LinkKeepsOthers(mem, roles, parent, i, f, content, flags, g);
      }
    }
  }

  /** Frame `f` is placed below a table and nothing is placed below it. */
  ghost predicate Childless(mem: seq<Frame>, roles: Roles, f: nat) {
    && f in roles && roles[f].depth > 0
    && (roles[f].depth < 4 ==> forall i: nat {:trigger PresentAt(mem, f, i)} :: i < ENTRIES ==> !PresentAt(mem, f, i))
  }

  function Unlinked(mem: seq<Frame>, roles: Roles, f: nat): seq<Frame>
    requires f in roles && roles[f].path.Sub?
  {
    SetEntry(mem, roles[f].parent, roles[f].path.i, EMPTY)
  }

  lemma UnlinkKeepsOthers(mem: seq<Frame>, roles: Roles, f: nat, g: nat)
    requires Tree(mem, roles) && Childless(mem, roles, f) && g in roles && g != f && roles[f].path.Sub?
    ensures FrameOk(Unlinked(mem, roles, f), roles - {f}, g)
  {
    var m := Unlinked(mem, roles, f);
    var rest := roles - {f};
    assert FrameOk(mem, roles, f) && ParentOk(mem, roles, f);
    assert FrameOk(mem, roles, g) && ParentOk(mem, roles, g);
    assert FrameOk(mem, roles, roles[f].parent);
    if roles[g].depth > 0 {
      assert FrameOk(mem, roles, roles[g].parent);
      assert roles[g].parent != f;
    }
    assert ParentOk(m, rest, g);
    forall i: nat | roles[g].depth < 4 && i < ENTRIES ensures ChildOk(m, rest, g, i) {
      assert ChildOk(mem, roles, g, i);
    }
  }

  /** Clearing the entry of a childless frame takes it out of the tree and nothing else. */
  lemma UnlinkFrame(mem: seq<Frame>, roles: Roles, f: nat)
    requires Tree(mem, roles) && Childless(mem, roles, f)
    ensures roles[f].path.Sub? && Tree(Unlinked(mem, roles, f), roles - {f})
  {
    assert FrameOk(mem, roles, f) && ParentOk(mem, roles, f);
    var m := Unlinked(mem, roles, f);
    var rest := roles - {f};
    forall g | g in rest ensures FrameOk(m, rest, g) { UnlinkKeepsOthers(mem, roles, f, g); }
  }

  /** Two trees that agree on what is placed at page `p`, and on the entry for it, translate
      it alike. */
  lemma SamePlaceSameLookup(m: seq<Frame>, roles: Roles, m': seq<Frame>, roles': Roles, root: nat, p: Path)
    requires Tree(m, roles) && Tree(m', roles') && UserPath(p) && Len(p) == 4
    requires IsRoot(roles, root) && IsRoot(roles', root)
    requires forall f :: Placed(roles, root, p, f) <==> Placed(roles', root, p, f)
    requires forall f :: Placed(roles, root, p, f) && Placed(roles', root, p, f) ==>
               EntryAt(m', roles'[f].parent, p.i) == EntryAt(m, roles[f].parent, p.i)
    ensures Lookup(m', root, p) == Lookup(m, root, p)
  {
    if Lookup(m, root, p).Some? {
      LookupIsPlacement(m, roles, root, p, Lookup(m, root, p).value.frame);
      LookupIsPlacement(m', roles', root, p, Lookup(m, root, p).value.frame);
    } else if Lookup(m', root, p).Some? {
      var f := Lookup(m', root, p).value.frame;
      LookupIsPlacement(m', roles', root, p, f);
      LookupIsPlacement(m, roles, root, p, f);
    }
  }

  /** Equal look-ups for every page make equal plain maps. */
  lemma SameLookupsSameMap(m: seq<Frame>, m': seq<Frame>, root: nat)
    requires forall p :: UserPath(p) && Len(p) == 4 ==> Lookup(m', root, p) == Lookup(m, root, p)
    ensures PageMap(m', root) == PageMap(m, root)
  {
    forall v: nat | UserPage(v) ensures Lookup(m', root, PathOf(v)) == Lookup(m, root, PathOf(v)) {
      PathOfPage(v);
    }
  }

  /** A changed look-up for one page changes the plain map there only. */
  lemma OneLookupChanged(m: seq<Frame>, m': seq<Frame>, root: nat, v: nat, e: Option<Entry>)
    requires UserPage(v)
    requires forall p :: UserPath(p) && Len(p) == 4 ==>
               Lookup(m', root, p) == if p == PathOf(v) then e else Lookup(m, root, p)
    ensures PageMap(m', root) == if e.Some? then PageMap(m, root)[v := e.value] else PageMap(m, root) - {v}
  {
    forall w: nat | UserPage(w)
      ensures Lookup(m', root, PathOf(w)) == if w == v then e else Lookup(m, root, PathOf(w))
    {
      PathOfPage(w);
      SamePath(v, w);
    }
  }

  lemma SamePath(v: nat, w: nat)
    requires UserPage(v) && UserPage(w)
    ensures PathOf(v) == PathOf(w) <==> v == w
  {
    if PathOf(v) == PathOf(w) { PathOfInjective(v, w); }
  }

  /** Writing to frames that are not page tables of any space changes no translation. */
  lemma DataWriteKeepsMaps(m: seq<Frame>, m': seq<Frame>, roles: Roles)
    requires Tree(m, roles) && |m'| == |m|
    requires forall f :: f in roles && f < |m| ==> if roles[f].depth < 4 then m'[f] == m[f] else m'[f].Data?
    ensures Tree(m', roles)
    ensures forall root :: IsRoot(roles, root) ==> PageMap(m', root) == PageMap(m, root)
  {
    forall f | f in roles ensures FrameOk(m', roles, f) {
      assert FrameOk(m, roles, f) && ParentOk(m, roles, f);
      assert roles[f].depth > 0 ==> FrameOk(m, roles, roles[f].parent);
      forall i: nat | roles[f].depth < 4 && i < ENTRIES ensures ChildOk(m', roles, f, i) {
        assert ChildOk(m, roles, f, i);
      }
    }
    forall root | IsRoot(roles, root) ensures PageMap(m', root) == PageMap(m, root) {
      forall p | UserPath(p) && Len(p) == 4 ensures Lookup(m', root, p) == Lookup(m, root, p) {
        forall f | Placed(roles, root, p, f)
          ensures EntryAt(m', roles[f].parent, p.i) == EntryAt(m, roles[f].parent, p.i)
        {
          assert FrameOk(m, roles, f) && ParentOk(m, roles, f) && FrameOk(m, roles, roles[f].parent);
        }
        SamePlaceSameLookup(m, roles, m', roles, root, p);
      }
      SameLookupsSameMap(m, m', root);
    }
  }
}

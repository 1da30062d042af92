/** What a process sees in its pages: the bytes behind each page of the plain map. */
module Contents {
  import opened Basics
  import opened Align
  import opened Paging
  import opened PageTree
  import opened Spaces
  import opened PageRuns

  type View = map<nat, seq<bv8>>

  function FrameBytes(mem: seq<Frame>, f: nat): seq<bv8> {
    if f < |mem| && mem[f].Data? then mem[f].bytes else []
  }

  /** The bytes of every mapped page. */
  ghost function ViewOf(s: Phys, root: nat): View {
    Through(PageMap(s.mem, root), s.mem)
  }

  ghost function Through(m: map<nat, Entry>, mem: seq<Frame>): View {
    map v | v in m :: FrameBytes(mem, m[v].frame)
  }

  /** From `c` to `c'` zeroed pages were added at [first, first + k), where there were none. */
  ghost predicate ZeroAdded(c: View, c': View, first: nat, k: nat) {
    && (forall v: nat :: v in c' <==> v in c || InRun(v, first, k))
    && (forall v: nat :: v in c ==> !InRun(v, first, k) && c'[v] == c[v])
    && (forall v: nat :: InRun(v, first, k) ==> c'[v] == ZeroPage().bytes)
  }

  lemma ZeroAddedMaps(m: map<nat, Entry>, m': map<nat, Entry>, mem: seq<Frame>, mem': seq<Frame>, used: seq<bool>,
                      first: nat, ds: seq<nat>, flags: Flags)
    requires m' == Extend(m, first, ds, flags) && Vacant(m, first, |ds|) && Fresh(used, mem', ds)
    requires forall v: nat :: v in m ==> FrameBytes(mem', m[v].frame) == FrameBytes(mem, m[v].frame)
    ensures ZeroAdded(Through(m, mem), Through(m', mem'), first, |ds|)
  {
    forall v: nat
      ensures (v in m' <==> v in m || InRun(v, first, |ds|))
              && (InRun(v, first, |ds|) ==> v !in m && FrameBytes(mem', m'[v].frame) == ZeroPage().bytes)
              && (v in m ==> m'[v] == m[v])
    {
      ExtendAt(m, first, ds, flags, v);
    }
  }

  /** Mapping a run of fresh pages adds zeroed pages to the view and leaves the rest. */
  lemma MappedView(s: Phys, roles: Roles, t: Phys, grown: Roles, root: nat, first: nat, ds: seq<nat>, flags: Flags)
    requires Inv(s, roles) && IsRoot(roles, root) && Mapped(s, roles, t, grown, root, first, ds, flags)
    ensures ZeroAdded(ViewOf(s, root), ViewOf(t, root), first, |ds|)
  {
    var m := PageMap(s.mem, root);
    forall v: nat | v in m ensures FrameBytes(t.mem, m[v].frame) == FrameBytes(s.mem, m[v].frame) {
      MappedIsPlaced(s, roles, root, v);
    }
    ZeroAddedMaps(m, PageMap(t.mem, root), s.mem, t.mem, s.used, first, ds, flags);
  }

  /** Different pages of a space are backed by different frames. */
  lemma OneFrameOnePage(s: Phys, roles: Roles, root: nat, v: nat, w: nat)
    requires Inv(s, roles) && IsRoot(roles, root)
    requires v in PageMap(s.mem, root) && w in PageMap(s.mem, root)
    requires PageMap(s.mem, root)[v].frame == PageMap(s.mem, root)[w].frame
    ensures v == w
  {
    MappedIsPlaced(s, roles, root, v);
    MappedIsPlaced(s, roles, root, w);
    PathOfInjective(v, w);
  }

  lemma ThroughWrite(m: map<nat, Entry>, mem: seq<Frame>, v: nat, bytes: Bytes)
    requires v in m && m[v].frame < |mem|
    requires forall w: nat :: w in m && m[w].frame == m[v].frame ==> w == v
    ensures Through(m, mem[m[v].frame := Data(bytes)]) == Through(m, mem)[v := bytes]
  {
  }

  lemma LeafWrite(s: Phys, roles: Roles, d: nat, bytes: Bytes)
    requires Inv(s, roles) && d in roles && roles[d].depth == 4 && d < |s.mem|
    ensures var t := Phys(s.used, s.mem[d := Data(bytes)]);
            && Inv(t, roles) && OnlySpace(s, roles, t, roles, roles[d].root)
            && forall root :: IsRoot(roles, root) ==> PageMap(t.mem, root) == PageMap(s.mem, root)
  {
    forall f | f in roles && f < |s.mem| ensures roles[f].depth < 4 || s.mem[f].Data? { assert FrameOk(s.mem, roles, f); }
    DataWriteKeepsMaps(s.mem, s.mem[d := Data(bytes)], roles);
  }

  /** Writing the frame behind one page changes that page of the view and no other, keeps the
      tree and touches no other space. */
  lemma WriteView(s: Phys, roles: Roles, root: nat, v: nat, bytes: Bytes)
    requires Inv(s, roles) && IsRoot(roles, root) && v in PageMap(s.mem, root)
    ensures var d := PageMap(s.mem, root)[v].frame;
            && d < |s.mem|
            && var t := Phys(s.used, s.mem[d := Data(bytes)]);
               && Inv(t, roles) && OnlySpace(s, roles, t, roles, root)
               && ViewOf(t, root) == ViewOf(s, root)[v := bytes]
  {
    var m := PageMap(s.mem, root);
    MappedIsPlaced(s, roles, root, v);
    LeafWrite(s, roles, m[v].frame, bytes);
    forall w: nat | w in m && m[w].frame == m[v].frame ensures w == v { OneFrameOnePage(s, roles, root, v, w); }
    ThroughWrite(m, s.mem, v, bytes);
  }

  lemma ThroughAddress(m: map<nat, Entry>, mem: seq<Frame>, v: nat, off: nat, r: Option<(nat, Flags)>)
    requires off < PAGE_SIZE && (v in m ==> m[v].frame < |mem| && mem[m[v].frame].Data?)
    requires r == if v in m then Some((m[v].frame * PAGE_SIZE + off, m[v].flags)) else None
    ensures v in Through(m, mem) <==> r.Some?
    ensures r.Some? ==> r.value.0 / PAGE_SIZE == m[v].frame && r.value.0 % PAGE_SIZE == off
                        && Through(m, mem)[v] == FrameBytes(mem, r.value.0 / PAGE_SIZE)
  {
  }

  /** A byte of the view is the byte at the physical address `vmm_resolve` gives. */
  lemma ViewIsResolve(s: Phys, roles: Roles, root: nat, virt: U64)
    requires Inv(s, roles) && IsRoot(roles, root) && UserPage(PageOf(virt))
    ensures var c, r := ViewOf(s, root), Resolve(s.mem, root, virt);
            && (PageOf(virt) in c <==> r.Some?)
            && (r.Some? ==> && PageOf(virt) in PageMap(s.mem, root)
                            && r.value.0 / PAGE_SIZE == PageMap(s.mem, root)[PageOf(virt)].frame
                            && c[PageOf(virt)] == FrameBytes(s.mem, r.value.0 / PAGE_SIZE)
                            && r.value.0 % PAGE_SIZE == virt % PAGE_SIZE)
  {
    ResolveIsLookup(s.mem, roles, root, virt);
    var v, r := PageOf(virt), Resolve(s.mem, root, virt);
    ViewAt(s, roles, root, v, virt % PAGE_SIZE, r);
  }

  lemma ViewAt(s: Phys, roles: Roles, root: nat, v: nat, off: nat, r: Option<(nat, Flags)>)
    requires Inv(s, roles) && IsRoot(roles, root) && off < PAGE_SIZE
    requires r == var m := PageMap(s.mem, root); if v in m then Some((m[v].frame * PAGE_SIZE + off, m[v].flags)) else None
    ensures v in ViewOf(s, root) <==> r.Some?
    ensures r.Some? ==> && v in PageMap(s.mem, root) && r.value.0 / PAGE_SIZE == PageMap(s.mem, root)[v].frame
                        && r.value.0 % PAGE_SIZE == off
                        && ViewOf(s, root)[v] == FrameBytes(s.mem, r.value.0 / PAGE_SIZE)
  {
    if v in PageMap(s.mem, root) { MappedIsPlaced(s, roles, root, v); }
    ThroughAddress(PageMap(s.mem, root), s.mem, v, off, r);
  }

  /** When only the space of `root` changed, every other space has the pages and the bytes it had. */
  lemma OtherViewKept(s: Phys, roles: Roles, t: Phys, roles': Roles, root: nat, other: nat)
    requires Inv(s, roles) && Inv(t, roles') && OnlySpace(s, roles, t, roles', root) && IsRoot(roles, other) && other != root
    ensures IsRoot(roles', other) && ViewOf(t, other) == ViewOf(s, other) && PageMap(t.mem, other) == PageMap(s.mem, other)
  {
    assert FrameOk(s.mem, roles, other);
    forall p | UserPath(p) && Len(p) == 4 ensures Lookup(t.mem, other, p) == Lookup(s.mem, other, p) {
      OtherPathKept(s, roles, t, roles', root, other, p);
    }
    SameLookupsSameMap(s.mem, t.mem, other);
    var m := PageMap(s.mem, other);
    forall v: nat | v in m ensures FrameBytes(t.mem, m[v].frame) == FrameBytes(s.mem, m[v].frame) {
      MappedIsPlaced(s, roles, other, v);
      assert ElsewhereUsed(s, roles, root, m[v].frame);
    }
  }

  lemma OtherPathKept(s: Phys, roles: Roles, t: Phys, roles': Roles, root: nat, other: nat, p: Path)
    requires Inv(s, roles) && Inv(t, roles') && OnlySpace(s, roles, t, roles', root) && other != root
    requires IsRoot(roles, other) && IsRoot(roles', other) && UserPath(p) && Len(p) == 4
    ensures Lookup(t.mem, other, p) == Lookup(s.mem, other, p)
  {
    forall f | Placed(roles, other, p, f) && Placed(roles', other, p, f)
      ensures EntryAt(t.mem, roles'[f].parent, p.i) == EntryAt(s.mem, roles[f].parent, p.i)
    {
      assert FrameOk(s.mem, roles, f) && ParentOk(s.mem, roles, f);
      assert ElsewhereUsed(s, roles, root, roles[f].parent);
    }
    SamePlaceSameLookup(s.mem, roles, t.mem, roles', other, p);
  }
}

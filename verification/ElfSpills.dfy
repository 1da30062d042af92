/** Unaligned segments whose first chunk reaches the frame behind the one it is for: whose frame that is. */
module ElfSpills {
  import opened Align
  import opened Paging
  import opened PageTree
  import opened Spaces
  import opened PageRuns
  import opened TableNeeds
  import RunOps
  import opened PhysBytes
  import opened ElfFile
  import opened ElfOps
  import opened ElfLaws
  import opened ElfEdges
  import Pmm
  import F = ThreadFaults
  import P = ProcessFaults

  /** The frame after `f` is in use, not by this space, and the chunk copied to `target` changes it. */
  ghost predicate Spills(s: Phys, roles: Roles, root: nat, f: nat, target: nat, chunk: seq<bv8>) {
    f + 1 < |s.mem| && ElsewhereUsed(s, roles, root, f + 1) && CopyBytes(s.mem, target, chunk)[f + 1] != s.mem[f + 1]
  }

  /** From `s` to `u` only the space of `root` changed. */
  ghost predicate OneSpace(s: Phys, roles: Roles, u: Phys, root: nat) {
    exists after :: OnlySpace(s, roles, u, after, root)
  }

  /** The copy loop changes frames of the space and, with its first chunk, the frame after the first. */
  lemma CopyReaches(t: Phys, roles: Roles, root: nat, first: nat, n: nat, f: nat, off: nat, va: U64, src: seq<bv8>,
                    mem': seq<Frame>, ok: bool)
    returns (target: nat, chunk: seq<bv8>, mem1: seq<Frame>)
    requires IsRoot(roles, root) && Inv(t, roles) && Still(t, t.mem, roles, root, first, f, off) && 0 < off && src != []
    requires UserPage(first) && PageOf(va) == first && va % PAGE_SIZE == off
    requires Resolve(t.mem, root, va).Some? && Resolve(t.mem, root, va).value.0 == f * PAGE_SIZE + off
    requires va == first * PAGE_SIZE + off && UserRun(first, n) && va + |src| <= (first + n) * PAGE_SIZE
    requires !HitsTable(t.mem, f, off, Chunk(va, |src|))
    requires (forall v: nat :: InRun(v, first, n) ==> v in PageMap(t.mem, root)) && CopiesTo(t.mem, root, va, src, mem', ok)
    ensures target == f * PAGE_SIZE + 2 * off && chunk == src[..Chunk(va, |src|)] && mem1 == CopyBytes(t.mem, target, chunk)
    ensures ok && SameElsewhere(mem1, mem', roles, root)
    ensures forall g: nat :: g < |t.mem| && g != f && g != f + 1 ==> mem1[g] == t.mem[g]
    ensures Of(roles, f, root)
  {
    var c, next, rest;
    target, c, chunk, next, rest, mem1 := CopyUnfold(t.mem, root, va, src, mem', ok);
    AfterFirst(va, src, first, n, off, c, next, rest);
    FirstChunk(t, roles, root, first, f, off, va, chunk, target, mem1);
    LaterKeeps(t, mem1, roles, root, first, n, f, off, next, rest, mem', ok);
    OnlyTwo(t.mem, f, off, chunk, target, mem1);
    MappedIsPlaced(t, roles, root, first);
  }

  lemma OnlyTwo(mem: seq<Frame>, f: nat, off: nat, src: seq<bv8>, target: nat, mem': seq<Frame>)
    requires target == f * PAGE_SIZE + 2 * off && off < PAGE_SIZE
    requires |src| <= PAGE_SIZE - off && mem' == CopyBytes(mem, target, src)
    ensures forall g: nat :: g < |mem| && g != f && g != f + 1 ==> mem'[g] == mem[g]
  {
    forall g: nat | g < |mem| && Reached(g, target, src) ensures g == f || g == f + 1 {}
  }

  /** An unaligned segment whose first chunk does not reach a page table, loaded where there is room:
      frames of other spaces and of the kernel are left alone exactly if that chunk does not spill into
      one of them. */
  lemma SpillExact(s: Phys, roles: Roles, root: nat, image: seq<bv8>, p: Phdr, bias: U64, first: nat, n: nat,
                   va: U64, u: Phys, ok: bool,
                   t: Phys, f: nat) returns (target: nat, chunk: seq<bv8>)
    requires Inv(s, roles) && IsRoot(roles, root) && Proper(p, bias) && va % PAGE_SIZE != 0
    requires p.offset + p.filesz <= |image| < TWO64 && p.filesz > 0
    requires first == FirstPage(p, bias) && n == SegmentPages(p, bias) && va == Vaddr(p, bias)
    requires LoadsTo(s, root, image, p, bias, u, ok) && Enough(s, root, first, n) && !Corrupts(s, root, p, bias)
    requires t == AfterMapping(s, root, p, bias) && first in PageMap(t.mem, root) && f == PageMap(t.mem, root)[first].frame
    ensures ok && target == f * PAGE_SIZE + 2 * (va % PAGE_SIZE) && chunk == FileBytes(image, p)[..Chunk(va, p.filesz)]
    ensures OneSpace(s, roles, u, root) <==> !Spills(s, roles, root, f, target, chunk)
  {
    var start, n', t', k, mem', copied := SegmentSteps(s, root, image, p, bias, u, ok);
    var off := va % PAGE_SIZE;
    FirstAddress(p, bias, first, n, va, off);
    var ds, after := RunOps.MapRunLaw(s, roles, root, start, first, n, SegmentFlags(p), t', k);
    MappedZero(s, roles, root, t, after, first, n, ds, SegmentFlags(p));
    var pa := ReadPage(t, after, root, va, first, f, off);
    NotHit(s, root, p, bias, t, k, va, pa, f, off);
    var mem1;
    target, chunk, mem1 := CopyReaches(t, after, root, first, n, f, off, va, FileBytes(image, p), mem', copied);
    SpillDecides(s, roles, t, after, root, f, target, chunk, mem1, u);
  }

  lemma SpillDecides(s: Phys, roles: Roles, t: Phys, after: Roles, root: nat, f: nat, target: nat, chunk: seq<bv8>,
                     mem1: seq<Frame>, u: Phys)
    requires OnlySpace(s, roles, t, after, root) && Of(after, f, root) && u.used == t.used && |s.used| == |s.mem|
    requires mem1 == CopyBytes(t.mem, target, chunk) && SameElsewhere(mem1, u.mem, after, root)
    requires forall g: nat :: g < |t.mem| && g != f && g != f + 1 ==> mem1[g] == t.mem[g]
    ensures OneSpace(s, roles, u, root) <==> !Spills(s, roles, root, f, target, chunk)
  {
    var g := f + 1;
    if g < |s.mem| && ElsewhereUsed(s, roles, root, g) {
      assert ElsewhereUsed(t, after, root, g) && t.mem[g] == s.mem[g];
      assert u.mem[g] == mem1[g] == CopyBytes(s.mem, target, chunk)[g];
    }
    if !Spills(s, roles, root, f, target, chunk) {
      forall h: nat | h < |s.mem| && ElsewhereUsed(s, roles, root, h) ensures u.mem[h] == s.mem[h] {
        assert ElsewhereUsed(t, after, root, h);
      }
      assert forall h: nat :: ElsewhereUsed(u, after, root, h) <==> ElsewhereUsed(t, after, root, h);
      assert OnlySpace(s, roles, u, after, root);
    }
  }

  // ---------------------------------------------------------------------------------------
  // An input
  // ---------------------------------------------------------------------------------------

  /** A segment of one byte in the middle of a page. */
  const MIDDLE_SEGMENT := Phdr(PT_LOAD, true, true, 0, USER_REGION_BASE + 2048, 1, 1)

  lemma MiddlePlace()
    ensures Proper(MIDDLE_SEGMENT, 0) && FirstPage(MIDDLE_SEGMENT, 0) == 0x800_0000 && SegmentPages(MIDDLE_SEGMENT, 0) == 1
    ensures Vaddr(MIDDLE_SEGMENT, 0) == USER_REGION_BASE + 2048 && (USER_REGION_BASE + 2048) % PAGE_SIZE == 2048
    ensures Chunk(USER_REGION_BASE + 2048, 1) == 1 && SegmentStart(MIDDLE_SEGMENT, 0) == USER_REGION_BASE
    ensures PageOf(USER_REGION_BASE) == 0x800_0000
  {
  }

  /** The first page of a run gets the lowest free frame. */
  lemma LowestFrame(s: Phys, roles: Roles, root: nat, virt: U64, v: nat, flags: Flags, t: Phys, k: nat)
    requires Inv(s, roles) && IsRoot(roles, root) && UserPage(v)
    requires RunOps.Pages(virt, v, 1) && RunOps.MapsTo(s, root, virt, 1, flags, t, k)
    requires Enough(s, root, v, 1)
    ensures v in PageMap(t.mem, root) && PageMap(t.mem, root)[v].frame == AllocFrame(s, ZeroPage()).1
  {
    RunOps.FirstHad(s, roles, root, virt, v, 1, flags, t, k);
    var (t1, ok) := MapFresh(s, root, PathOf(v), flags);
    MapFreshLaw(s, roles, root, v, flags, root);
    var j := RunOps.MapRunUnfold(s, root, virt, 1, flags, v, t1, ok, Add64(virt, PAGE_SIZE), 0, t, k);
  }

  /** The lowest free frame is followed by a cleared frame in use elsewhere: loading that segment into a
      space with room writes its byte into that frame. */
  lemma MiddleSpills(s: Phys, roles: Roles, root: nat, u: Phys, ok: bool, f: nat, g: nat)
    requires Inv(s, roles) && IsRoot(roles, root) && Enough(s, root, 0x800_0000, 1)
    requires LoadsTo(s, root, [0x90], MIDDLE_SEGMENT, 0, u, ok)
    requires f == AllocFrame(s, ZeroPage()).1 && g == f + 1
    requires ElsewhereUsed(s, roles, root, g) && g < |s.mem| && s.mem[g] == ZeroPage()
    ensures ok && !OneSpace(s, roles, u, root)
  {
    var p, va := MIDDLE_SEGMENT, USER_REGION_BASE + 2048;
    MiddlePlace();
    var t := MiddleMapped(s, roles, root, f, g);
    var target, chunk := SpillExact(s, roles, root, [0x90], p, 0, 0x800_0000, 1, va, u, ok, t, f);
    assert chunk == [0x90] && target == g * PAGE_SIZE;
    ByteBehind(s, roles, root, f, g, target, chunk);
  }

  /** The segment's page gets frame `f`, and no page table is behind it. */
  lemma MiddleMapped(s: Phys, roles: Roles, root: nat, f: nat, g: nat) returns (t: Phys)
    requires Inv(s, roles) && IsRoot(roles, root) && Enough(s, root, 0x800_0000, 1)
    requires f == AllocFrame(s, ZeroPage()).1 && g == f + 1
    requires ElsewhereUsed(s, roles, root, g) && g < |s.mem| && s.mem[g] == ZeroPage()
    ensures t == AfterMapping(s, root, MIDDLE_SEGMENT, 0) && !Corrupts(s, root, MIDDLE_SEGMENT, 0)
    ensures 0x800_0000 in PageMap(t.mem, root) && PageMap(t.mem, root)[0x800_0000].frame == f
  {
    var p, va := MIDDLE_SEGMENT, USER_REGION_BASE + 2048;
    MiddlePlace();
    var r := RunOps.MapRun(s, root, SegmentStart(p, 0), SegmentPages(p, 0), SegmentFlags(p));
    t := r.0;
    FirstAddress(p, 0, 0x800_0000, 1, va, 2048);
    LowestFrame(s, roles, root, SegmentStart(p, 0), 0x800_0000, SegmentFlags(p), t, r.1);
    NoTableBehind(s, roles, root, p, t, r.1, va, f, g);
  }

  lemma ByteBehind(s: Phys, roles: Roles, root: nat, f: nat, g: nat, target: nat, chunk: seq<bv8>)
    requires g == f + 1 && g < |s.mem| && ElsewhereUsed(s, roles, root, g) && s.mem[g] == ZeroPage()
    requires target == g * PAGE_SIZE && chunk == [0x90]
    ensures Spills(s, roles, root, f, target, chunk)
  {
    assert Reached(g, target, chunk);
    assert CopyBytes(s.mem, target, chunk)[g].bytes[0] == 0x90;
  }

  lemma NoTableBehind(s: Phys, roles: Roles, root: nat, p: Phdr, t: Phys, k: nat, va: U64, f: nat, g: nat)
    requires Inv(s, roles) && IsRoot(roles, root) && Enough(s, root, 0x800_0000, 1)
    requires p == MIDDLE_SEGMENT && va == USER_REGION_BASE + 2048
    requires RunOps.MapsTo(s, root, SegmentStart(p, 0), SegmentPages(p, 0), SegmentFlags(p), t, k)
    requires 0x800_0000 in PageMap(t.mem, root) && PageMap(t.mem, root)[0x800_0000].frame == f
    requires g == f + 1 && ElsewhereUsed(s, roles, root, g) && g < |s.mem| && s.mem[g].Data?
    ensures !Corrupts(s, root, p, 0)
  {
    MiddlePlace();
    FirstAddress(p, 0, 0x800_0000, 1, va, 2048);
    var ds, after := RunOps.MapRunLaw(s, roles, root, SegmentStart(p, 0), 0x800_0000, 1, SegmentFlags(p), t, k);
    var pa := ReadPage(t, after, root, va, 0x800_0000, f, 2048);
    assert pa / PAGE_SIZE == f && t.mem[g] == s.mem[g];
  }

  /** Sixteen frames, of which 0, 1 and 4 are in use. */
  function Machine(): (s: Phys)
    ensures |s.used| == |s.mem| == 16 && forall f :: 0 <= f < 16 ==> s.used[f] == (f in {0, 1, 4}) && s.mem[f] == ZeroPage()
  {
    Phys(seq(16, f => f in {0, 1, 4}), seq(16, _ => ZeroPage()))
  }

  lemma LowestFree(used: seq<bool>, k: nat)
    requires |used| > 0 && used[0] && k < |used| && !used[k] && forall f :: 0 <= f < k ==> used[f]
    ensures Pmm.Alloc(used, 1) == (used[k := true], k)
  {
    Pmm.AllocFirstFit(used, 1);
    assert Pmm.FreeRun(used, k, 1);
    var (u, f) := Pmm.Alloc(used, 1);
    assert Pmm.FreeRun(used, f, 1) && !used[f];
    assert u == used[k := true];
  }

  lemma MachineRoot(s0: Phys, s: Phys, root: nat)
    requires s0 == Machine() && (s, root) == CreateRoot(s0, 1)
    ensures |s.used| == |s.mem| == 16 && root == 2 && s.mem[4] == ZeroPage() && s.used == s0.used[2 := true]
    ensures AllocFrame(s, ZeroPage()).1 == 3
  {
    LowestFree(s0.used, 2);
    LowestFree(s.used, 3);
  }

  /** The first space of that machine is such a space: its lowest free frame is 3. */
  lemma MachineSpills() returns (s: Phys, roles: Roles, root: nat)
    ensures (s, root) == CreateRoot(Machine(), 1) && Inv(s, roles) && IsRoot(roles, root) && Enough(s, root, 0x800_0000, 1)
    ensures AllocFrame(s, ZeroPage()).1 == 3 && ElsewhereUsed(s, roles, root, 4) && 4 < |s.mem| && s.mem[4] == ZeroPage()
  {
    var s0 := Machine();
    roles := CreateRootStep(s0, map[], 1);
    var r := CreateRoot(s0, 1);
    s, root := r.0, r.1;
    MachineRoot(s0, s, root);
    P.FirstFits(s, roles, root, 5, 11);
  }
}

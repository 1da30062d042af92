/** Segments that do not begin at a page boundary: where their first bytes go, and what is read instead. */
module ElfEdges {
  import opened Basics
  import opened Align
  import opened Paging
  import opened PageTree
  import opened Spaces
  import opened PageRuns
  import opened TableNeeds
  import RunOps
  import opened Contents
  import opened PhysBytes
  import opened ElfFile
  import opened ElfOps
  import opened ElfLaws

  /** In `mem` the tables are what they were in `t`, and the byte at `off` of the frame behind page
      `first` is still zero. */
  ghost predicate Still(t: Phys, mem: seq<Frame>, roles: Roles, root: nat, first: nat, f: nat, off: nat) {
    && |mem| == |t.mem| && Inv(Phys(t.used, mem), roles) && PageMap(mem, root) == PageMap(t.mem, root)
    && first in PageMap(mem, root) && PageMap(mem, root)[first].frame == f
    && off < PAGE_SIZE && f < |mem| && mem[f].Data? && mem[f].bytes[off] == 0
  }

  /** A write to frames of data keeps the tables. */
  lemma DataWrite(t: Phys, roles: Roles, root: nat, mem': seq<Frame>)
    requires Inv(t, roles) && IsRoot(roles, root) && |mem'| == |t.mem|
    requires forall g :: 0 <= g < |t.mem| ==> if t.mem[g].Table? then mem'[g] == t.mem[g] else mem'[g].Data?
    ensures Inv(Phys(t.used, mem'), roles) && PageMap(mem', root) == PageMap(t.mem, root)
  {
    forall g | g in roles && g < |t.mem| ensures if roles[g].depth < 4 then mem'[g] == t.mem[g] else mem'[g].Data? {
      assert FrameOk(t.mem, roles, g);
    }
    DataWriteKeepsMaps(t.mem, mem', roles);
  }

  /** The chunk copied to the address `va` behind frame `f` reaches into the next frame, and that is a
      page table. */
  predicate HitsTable(mem: seq<Frame>, f: nat, off: nat, n: nat) {
    2 * off + n > PAGE_SIZE && f + 1 < |mem| && mem[f + 1].Table?
  }

  /** The first chunk of an unaligned segment goes past the address it is for. */
  lemma FirstChunk(t: Phys, roles: Roles, root: nat, first: nat, f: nat, off: nat, va: U64, chunk: seq<bv8>,
                   target: nat, mem': seq<Frame>)
    requires IsRoot(roles, root) && Still(t, t.mem, roles, root, first, f, off)
    requires 0 < off && chunk != [] && |chunk| <= PAGE_SIZE - off
    requires !HitsTable(t.mem, f, off, |chunk|) && target == f * PAGE_SIZE + 2 * off && mem' == CopyBytes(t.mem, target, chunk)
    ensures Still(t, mem', roles, root, first, f, off)
  {
    GoesPast(t.mem, f, off, chunk, target, mem');
    DataWrite(t, roles, root, mem');
  }

  lemma GoesPast(mem: seq<Frame>, f: nat, off: nat, src: seq<bv8>, target: nat, mem': seq<Frame>)
    requires f < |mem| && mem[f].Data? && 0 < off && src != [] && |src| <= PAGE_SIZE - off
    requires !HitsTable(mem, f, off, |src|) && target == f * PAGE_SIZE + 2 * off && mem' == CopyBytes(mem, target, src)
    ensures mem'[f].Data? && mem'[f].bytes[off] == mem[f].bytes[off]
    ensures forall g :: 0 <= g < |mem| ==> if mem[g].Table? then mem'[g] == mem[g] else mem'[g].Data?
  {
    forall g | 0 <= g < |mem| && Reached(g, target, src) ensures g == f || (g == f + 1 && 2 * off + |src| > PAGE_SIZE) {}
  }

  /** Whatever lies in the frames behind: once the first chunk is copied, the byte of the frame that backs
      its address is the chunk's first byte exactly if the address is a page boundary. */
  lemma FirstChunkExact(mem: seq<Frame>, f: nat, off: nat, src: seq<bv8>, target: nat, mem': seq<Frame>)
    requires f < |mem| && mem[f].Data? && off < PAGE_SIZE && src != [] && |src| <= PAGE_SIZE - off && src[0] != mem[f].bytes[off]
    requires target == f * PAGE_SIZE + 2 * off && mem' == CopyBytes(mem, target, src)
    ensures mem'[f].Data? && (mem'[f].bytes[off] == src[0] <==> off == 0)
  {
    if off == 0 { assert Reached(f, target, src); }
  }

  /** Only frames of the space of `root` differ. */
  ghost predicate SameElsewhere(mem: seq<Frame>, mem': seq<Frame>, roles: Roles, root: nat) {
    |mem'| == |mem| && forall g: nat :: g < |mem| && !Of(roles, g, root) ==> mem'[g] == mem[g]
  }

  /** A later chunk goes to the frame behind another page. */
  lemma LaterChunk(t: Phys, mem: seq<Frame>, roles: Roles, root: nat, first: nat, f: nat, off: nat,
                   v: nat, va: U64, chunk: seq<bv8>, target: nat, mem': seq<Frame>)
    requires IsRoot(roles, root) && Still(t, mem, roles, root, first, f, off)
    requires v in PageMap(t.mem, root) && v != first && UserPage(v)
    requires PageOf(va) == v && va % PAGE_SIZE == 0 && 0 < |chunk| <= PAGE_SIZE && Copied(mem, root, va, target, chunk, mem')
    ensures Resolve(mem, root, va).Some? && Still(t, mem', roles, root, first, f, off) && SameElsewhere(mem, mem', roles, root)
  {
    var s := Phys(t.used, mem);
    PageFrame(s, roles, root, v);
    MappedIsPlaced(s, roles, root, v);
    ResolvedPage(s, roles, root, va, v);
    var g := PageMap(mem, root)[v].frame;
    if g == f { OneFrameOnePage(s, roles, root, v, first); }
    CopyInFrame(mem, g, 0, target, chunk);
    DataWrite(s, roles, root, mem');
  }

  /** The bytes left belong to whole pages of the segment after the first. */
  predicate Later(va: U64, src: seq<bv8>, first: nat, n: nat) {
    UserRun(first, n) && (src != [] ==> va % PAGE_SIZE == 0 && (first + 1) * PAGE_SIZE <= va && va + |src| <= (first + n) * PAGE_SIZE)
  }

  lemma LaterNext(va: U64, src: seq<bv8>, first: nat, n: nat, c: nat, next: U64, rest: seq<bv8>) returns (v: nat)
    requires Later(va, src, first, n) && src != [] && c == Chunk(va, |src|) && next == Add64(va, c) && rest == src[c..]
    ensures PageOf(va) == v && InRun(v, first, n) && v != first && UserPage(v)
    ensures va % PAGE_SIZE == 0 && Later(next, rest, first, n)
  {
    v := va / PAGE_SIZE;
    assert va == v * PAGE_SIZE;
  }

  lemma {:induction false} LaterKeeps(t: Phys, mem: seq<Frame>, roles: Roles, root: nat, first: nat, n: nat, f: nat, off: nat,
                                      va: U64, src: seq<bv8>, mem': seq<Frame>, ok: bool)
    requires IsRoot(roles, root) && Still(t, mem, roles, root, first, f, off) && Later(va, src, first, n)
    requires (forall v: nat :: InRun(v, first, n) ==> v in PageMap(t.mem, root)) && CopiesTo(mem, root, va, src, mem', ok)
    ensures ok && Still(t, mem', roles, root, first, f, off) && SameElsewhere(mem, mem', roles, root)
    decreases |src|
  {
    if src != [] {
      var target, c, chunk, next, rest, mem1 := CopyUnfold(mem, root, va, src, mem', ok);
      var v := LaterNext(va, src, first, n, c, next, rest);
      LaterChunk(t, mem, roles, root, first, f, off, v, va, chunk, target, mem1);
      LaterKeeps(t, mem1, roles, root, first, n, f, off, next, rest, mem', ok);
    }
  }

  // ---------------------------------------------------------------------------------------
  // The segment
  // ---------------------------------------------------------------------------------------

  /** The byte at a physical address. */
  function ByteAt(mem: seq<Frame>, pa: nat): Option<bv8> {
    var b := FrameBytes(mem, pa / PAGE_SIZE);
    if pa % PAGE_SIZE < |b| then Some(b[pa % PAGE_SIZE]) else None
  }

  /** What is read through `vmm_resolve` at `va` is `x`. */
  predicate Reads(mem: seq<Frame>, root: nat, va: U64, x: bv8) {
    var r := Resolve(mem, root, va);
    r.Some? && ByteAt(mem, r.value.0) == Some(x)
  }

  lemma ByteIn(mem: seq<Frame>, f: nat, off: nat, pa: nat)
    requires f < |mem| && mem[f].Data? && off < PAGE_SIZE && pa == f * PAGE_SIZE + off
    ensures ByteAt(mem, pa) == Some(mem[f].bytes[off])
  {
    assert pa / PAGE_SIZE == f && pa % PAGE_SIZE == off;
  }

  /** The state once the pages of a segment are mapped. */
  function AfterMapping(s: Phys, root: nat, p: Phdr, bias: U64): Phys {
    RunOps.MapRun(s, root, SegmentStart(p, bias), SegmentPages(p, bias), SegmentFlags(p)).0
  }

  /** The first chunk of the segment reaches from the frame behind its first page into a page table. */
  ghost predicate Corrupts(s: Phys, root: nat, p: Phdr, bias: U64) {
    var t, va := AfterMapping(s, root, p, bias), Vaddr(p, bias);
    && p.filesz > 0 && Resolve(t.mem, root, va).Some?
    && HitsTable(t.mem, Resolve(t.mem, root, va).value.0 / PAGE_SIZE, va % PAGE_SIZE, Chunk(va, p.filesz))
  }

  lemma ReadPage(t: Phys, roles: Roles, root: nat, va: U64, v: nat, f: nat, off: nat) returns (pa: nat)
    requires Inv(t, roles) && IsRoot(roles, root) && UserPage(v) && PageOf(va) == v && va % PAGE_SIZE == off
    requires v in PageMap(t.mem, root) && PageMap(t.mem, root)[v].frame == f
    ensures f < |t.mem| && t.mem[f].Data? && pa == f * PAGE_SIZE + off
    ensures Resolve(t.mem, root, va).Some? && Resolve(t.mem, root, va).value.0 == pa
    ensures ByteAt(t.mem, pa) == Some(t.mem[f].bytes[off])
  {
    PageFrame(t, roles, root, v);
    ResolvedPage(t, roles, root, va, v);
    pa := f * PAGE_SIZE + off;
    ByteIn(t.mem, f, off, pa);
  }

  lemma ReadsOne(mem: seq<Frame>, root: nat, va: U64, pa: nat, x: bv8, y: bv8)
    requires Resolve(mem, root, va).Some? && Resolve(mem, root, va).value.0 == pa && ByteAt(mem, pa) == Some(y)
    ensures Reads(mem, root, va, x) <==> x == y
  {
  }

  /** The copy loop leaves the first byte of an unaligned segment as the mapping made it: zero. */
  lemma FirstByteZero(t: Phys, roles: Roles, root: nat, first: nat, n: nat, f: nat, off: nat, va: U64, src: seq<bv8>,
                      mem': seq<Frame>, ok: bool)
    requires IsRoot(roles, root) && Still(t, t.mem, roles, root, first, f, off) && 0 < off && src != []
    requires UserPage(first) && PageOf(va) == first && va % PAGE_SIZE == off
    requires Resolve(t.mem, root, va).Some? && Resolve(t.mem, root, va).value.0 == f * PAGE_SIZE + off
    requires va == first * PAGE_SIZE + off && UserRun(first, n)
    requires va + |src| <= (first + n) * PAGE_SIZE && !HitsTable(t.mem, f, off, Chunk(va, |src|))
    requires (forall v: nat :: InRun(v, first, n) ==> v in PageMap(t.mem, root)) && CopiesTo(t.mem, root, va, src, mem', ok)
    ensures ok && Still(t, mem', roles, root, first, f, off)
  {
    var target, c, chunk, next, rest, mem1 := CopyUnfold(t.mem, root, va, src, mem', ok);
    AfterFirst(va, src, first, n, off, c, next, rest);
    FirstChunk(t, roles, root, first, f, off, va, chunk, target, mem1);
    LaterKeeps(t, mem1, roles, root, first, n, f, off, next, rest, mem', ok);
  }

  lemma AfterFirst(va: U64, src: seq<bv8>, first: nat, n: nat, off: nat, c: nat, next: U64, rest: seq<bv8>)
    requires src != [] && va == first * PAGE_SIZE + off && off < PAGE_SIZE
    requires UserRun(first, n) && va + |src| <= (first + n) * PAGE_SIZE
    requires va % PAGE_SIZE == off && c == Chunk(va, |src|) && next == Add64(va, c) && rest == src[c..]
    ensures Later(next, rest, first, n)
  {
  }

  lemma FirstAddress(p: Phdr, bias: U64, first: nat, n: nat, va: U64, off: nat)
    requires Proper(p, bias) && p.filesz > 0 && first == FirstPage(p, bias)
    requires n == SegmentPages(p, bias) && va == Vaddr(p, bias) && off == va % PAGE_SIZE
    ensures n > 0 && InRun(first, first, n) && UserRun(first, n) && RunOps.Pages(SegmentStart(p, bias), first, n)
    ensures va == first * PAGE_SIZE + off && UserPage(first) && PageOf(va) == first && va + p.filesz <= (first + n) * PAGE_SIZE
    ensures Aligned(p, bias) <==> off == 0
  {
    SegmentBounds(p, bias, first, n);
  }

  lemma NotHit(s: Phys, root: nat, p: Phdr, bias: U64, t: Phys, k: nat, va: U64, pa: nat, f: nat, off: nat)
    requires p.filesz > 0 && !Corrupts(s, root, p, bias) && va == Vaddr(p, bias)
    requires off == va % PAGE_SIZE && pa == f * PAGE_SIZE + off
    requires RunOps.MapsTo(s, root, SegmentStart(p, bias), SegmentPages(p, bias), SegmentFlags(p), t, k)
    requires Resolve(t.mem, root, va).Some? && Resolve(t.mem, root, va).value.0 == pa
    ensures !HitsTable(t.mem, f, off, Chunk(va, p.filesz))
  {
    assert pa / PAGE_SIZE == f;
  }

  lemma AlignedByte(s: Phys, roles: Roles, root: nat, image: seq<bv8>, p: Phdr, bias: U64, first: nat, n: nat,
                    va: U64, u: Phys, ok: bool, x: bv8)
    requires Inv(s, roles) && IsRoot(roles, root) && Proper(p, bias) && Aligned(p, bias)
    requires p.offset + p.filesz <= |image| < TWO64 && p.filesz > 0
    requires first == FirstPage(p, bias) && n == SegmentPages(p, bias) && va == Vaddr(p, bias) && va % PAGE_SIZE == 0
    requires LoadsTo(s, root, image, p, bias, u, ok) && Enough(s, root, first, n)
    ensures ok && (Reads(u.mem, root, va, x) <==> x == image[p.offset])
  {
    var after := SegmentLaw(s, roles, root, image, p, bias, first, n, u, ok);
    FirstAddress(p, bias, first, n, va, 0);
    assert first in ViewOf(u, root) && first in PageMap(u.mem, root);
    PageFrame(u, after, root, first);
    var pa := ReadPage(u, after, root, va, first, PageMap(u.mem, root)[first].frame, 0);
    ReadsOne(u.mem, root, va, pa, x, image[p.offset]);
  }

  lemma UnalignedByte(s: Phys, roles: Roles, root: nat, image: seq<bv8>, p: Phdr, bias: U64, first: nat, n: nat,
                      va: U64, u: Phys, ok: bool, x: bv8)
    requires Inv(s, roles) && IsRoot(roles, root) && Proper(p, bias) && va % PAGE_SIZE != 0
    requires p.offset + p.filesz <= |image| < TWO64 && p.filesz > 0
    requires first == FirstPage(p, bias) && n == SegmentPages(p, bias) && va == Vaddr(p, bias)
    requires LoadsTo(s, root, image, p, bias, u, ok) && Enough(s, root, first, n) && !Corrupts(s, root, p, bias)
    ensures ok && (Reads(u.mem, root, va, x) <==> x == 0)
  {
    var start, n', t, k, mem', copied := SegmentSteps(s, root, image, p, bias, u, ok);
    var off := va % PAGE_SIZE;
    FirstAddress(p, bias, first, n, va, off);
    var ds, after := RunOps.MapRunLaw(s, roles, root, start, first, n, SegmentFlags(p), t, k);
    MappedZero(s, roles, root, t, after, first, n, ds, SegmentFlags(p));
    CopyMisses(s, root, image, p, bias, first, n, va, off, t, after, k, mem', copied, x);
  }

  lemma CopyMisses(s: Phys, root: nat, image: seq<bv8>, p: Phdr, bias: U64, first: nat, n: nat, va: U64, off: nat,
                   t: Phys, after: Roles, k: nat, mem': seq<Frame>, ok: bool, x: bv8)
    requires p.offset + p.filesz <= |image| && p.filesz > 0 && va == Vaddr(p, bias) && off == va % PAGE_SIZE && off != 0
    requires va == first * PAGE_SIZE + off && UserPage(first) && PageOf(va) == first
    requires va + p.filesz <= (first + n) * PAGE_SIZE && UserRun(first, n)
    requires RunOps.MapsTo(s, root, SegmentStart(p, bias), SegmentPages(p, bias), SegmentFlags(p), t, k)
    requires !Corrupts(s, root, p, bias)
    requires IsRoot(after, root) && Inv(t, after) && first in PageMap(t.mem, root)
    requires Still(t, t.mem, after, root, first, PageMap(t.mem, root)[first].frame, off)
    requires forall v: nat :: InRun(v, first, n) ==> v in PageMap(t.mem, root)
    requires CopiesTo(t.mem, root, va, FileBytes(image, p), mem', ok)
    ensures ok && (Reads(mem', root, va, x) <==> x == 0)
  {
    var f := PageMap(t.mem, root)[first].frame;
    var pa := ReadPage(t, after, root, va, first, f, off);
    NotHit(s, root, p, bias, t, k, va, pa, f, off);
    FirstByteZero(t, after, root, first, n, f, off, va, FileBytes(image, p), mem', ok);
    var pa' := ReadPage(Phys(t.used, mem'), after, root, va, first, f, off);
    ReadsOne(mem', root, va, pa', x, 0);
  }

  lemma MappedZero(s: Phys, roles: Roles, root: nat, t: Phys, after: Roles, first: nat, n: nat, ds: seq<nat>, flags: Flags)
    requires Inv(s, roles) && IsRoot(roles, root) && |ds| == n > 0 && Mapped(s, roles, t, after, root, first, ds, flags)
    ensures Inv(t, after) && IsRoot(after, root) && forall v: nat :: InRun(v, first, n) ==> v in PageMap(t.mem, root)
    ensures first in PageMap(t.mem, root)
    ensures forall off: nat :: off < PAGE_SIZE ==> Still(t, t.mem, after, root, first, PageMap(t.mem, root)[first].frame, off)
  {
    MappedView(s, roles, t, after, root, first, ds, flags);
    assert InRun(first, first, n) && forall v: nat :: InRun(v, first, n) ==> v in ViewOf(t, root);
    PageFrame(t, after, root, first);
  }

  /** A segment whose first file byte is not zero, loaded into a space that has room for it without
      overwriting a page table: the byte read at its address is that byte exactly if the segment begins
      at a page boundary. */
  lemma FirstByteExact(s: Phys, roles: Roles, root: nat, image: seq<bv8>, p: Phdr, bias: U64, first: nat, n: nat,
                       va: U64, u: Phys, ok: bool)
    requires Inv(s, roles) && IsRoot(roles, root) && Proper(p, bias) && p.offset + p.filesz <= |image| < TWO64 && p.filesz > 0
    requires first == FirstPage(p, bias) && n == SegmentPages(p, bias) && va == Vaddr(p, bias)
    requires LoadsTo(s, root, image, p, bias, u, ok) && Enough(s, root, first, n)
    requires image[p.offset] != 0 && !Corrupts(s, root, p, bias)
    ensures ok && (Reads(u.mem, root, va, image[p.offset]) <==> Aligned(p, bias))
  {
    FirstAddress(p, bias, first, n, va, va % PAGE_SIZE);
    if Aligned(p, bias) {
      AlignedByte(s, roles, root, image, p, bias, first, n, va, u, ok, image[p.offset]);
    } else {
      UnalignedByte(s, roles, root, image, p, bias, first, n, va, u, ok, image[p.offset]);
    }
  }

  /** A segment of one byte, 8 bytes into a page: what is read at its address is 0, not the byte. */
  const ODD_SEGMENT := Phdr(PT_LOAD, true, true, 0, USER_REGION_BASE + 8, 1, 1)

  lemma OddByteLost(s: Phys, roles: Roles, root: nat, u: Phys, ok: bool)
    requires Inv(s, roles) && IsRoot(roles, root) && Enough(s, root, 0x800_0000, 1)
    requires LoadsTo(s, root, [0x90], ODD_SEGMENT, 0, u, ok)
    ensures ok && Reads(u.mem, root, USER_REGION_BASE + 8, 0) && !Reads(u.mem, root, USER_REGION_BASE + 8, 0x90)
  {
    OddPlace();
    OddStays(s, root);
    var va := USER_REGION_BASE + 8;
    UnalignedByte(s, roles, root, [0x90], ODD_SEGMENT, 0, 0x800_0000, 1, va, u, ok, 0);
    UnalignedByte(s, roles, root, [0x90], ODD_SEGMENT, 0, 0x800_0000, 1, va, u, ok, 0x90);
  }

  lemma OddPlace()
    ensures Proper(ODD_SEGMENT, 0) && FirstPage(ODD_SEGMENT, 0) == 0x800_0000 && SegmentPages(ODD_SEGMENT, 0) == 1
    ensures Vaddr(ODD_SEGMENT, 0) == USER_REGION_BASE + 8 && (USER_REGION_BASE + 8) % PAGE_SIZE == 8
  {
  }

  lemma OddStays(s: Phys, root: nat)
    ensures !Corrupts(s, root, ODD_SEGMENT, 0)
  {
    OddPlace();
    assert Chunk(USER_REGION_BASE + 8, 1) == 1;
  }
}

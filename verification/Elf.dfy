/** `elf64_load_image` of src/elf.c up to relocation, as it runs. */
module Elf {
  import opened Basics
  import opened Align
  import opened Paging
  import opened Vmm
  import opened UserMemory
  import opened PhysBytes
  import opened ElfFile
  import V = ElfOps
  import L = ElfLaws
  import I = ElfImages

  /** `memcpy` to a physical address, frame by frame */
  method CopyOut(m: Memory, target: nat, src: seq<bv8>)
    requires m.Shaped()
    modifies m.mem
    ensures m.Shaped() && m.State() == Phys(old(m.State()).used, CopyBytes(old(m.State()).mem, target, src))
  {
    ghost var was := m.mem[..];
    var lo, hi := target / PAGE_SIZE, (target + |src| + PAGE_SIZE - 1) / PAGE_SIZE;
    if src == [] { hi := lo; }
    if hi > m.mem.Length { hi := m.mem.Length; }
    if lo > hi { lo := hi; }
    for f := lo to hi
      invariant forall g :: 0 <= g < m.mem.Length ==> m.mem[g] == if lo <= g < f then FrameAfter(was[g], g * PAGE_SIZE, target, src) else was[g]
    {
      m.mem[f] := FrameAfter(m.mem[f], f * PAGE_SIZE, target, src);
    }
    forall g | 0 <= g < |was| ensures m.mem[g] == CopyBytes(was, target, src)[g] { ReachedFrames(g, target, src, lo, hi, |was|); }
    assert m.mem[..] == CopyBytes(was, target, src);
  }

  lemma ReachedFrames(g: nat, target: nat, src: seq<bv8>, lo: nat, hi: nat, size: nat)
    requires g < size
    requires src == [] ==> lo >= hi
    requires src != [] ==> var l, h := target / PAGE_SIZE, (target + |src| + PAGE_SIZE - 1) / PAGE_SIZE;
                           hi == (if h > size then size else h) && lo == if l > hi then hi else l
    ensures Reached(g, target, src) <==> lo <= g < hi
  {
  }

  /** One round of the loop below. */
  method CopyNext(m: Memory, root: nat, va: U64, src: seq<bv8>, copied: nat, ghost rest: seq<bv8>,
                  ghost mem': seq<Frame>, ghost fine: bool)
    returns (ok: bool, next: U64, copied': nat, ghost rest': seq<bv8>)
    requires m.Shaped() && copied < |src| && rest == src[copied..] && L.CopiesTo(m.State().mem, root, va, rest, mem', fine)
    modifies m.mem
    ensures m.Shaped() && m.State().used == old(m.State()).used
    ensures ok ==> copied < copied' <= |src| && rest' == src[copied'..] && L.CopiesTo(m.State().mem, root, next, rest', mem', fine)
    ensures !ok ==> m.State().mem == mem' && !fine
  {
    ghost var mem := m.State().mem;
    ghost var target, n, chunk, va', mem1;
    target, n, chunk, va', rest', mem1 := L.CopyUnfold(mem, root, va, rest, mem', fine);
    var r := m.Resolve(root, va);
    next, copied' := va, copied;
    if r.None? { return false, va, copied, rest'; }
    var c := V.Chunk(va, |src| - copied);
    var to, bytes := r.value.0 + va % PAGE_SIZE, src[copied..copied + c];
    assert bytes == chunk && to == target;
    CopyOut(m, to, bytes);
    next, copied' := Add64(va, c), copied + c;
    assert rest' == src[copied'..];
    return true, next, copied', rest';
  }

  /** The copy loop of `elf64_load_image` */
  method CopySegment(m: Memory, root: nat, vaddr: U64, src: seq<bv8>) returns (ok: bool)
    requires m.Shaped()
    modifies m.mem
    ensures m.Shaped() && m.State().used == old(m.State()).used
    ensures (m.State().mem, ok) == V.CopyLoop(old(m.State()).mem, root, vaddr, src)
  {
    ghost var (mem', fine) := V.CopyLoop(m.State().mem, root, vaddr, src);
    ghost var rest := src;
    var va, copied: nat := vaddr, 0;
    while copied < |src|
      invariant m.Shaped() && copied <= |src| && rest == src[copied..] && m.State().used == old(m.State()).used
      invariant L.CopiesTo(m.State().mem, root, va, rest, mem', fine)
    {
      ok, va, copied, rest := CopyNext(m, root, va, src, copied, rest, mem', fine);
      if !ok { return; }
    }
    ok := true;
  }

  /** One loadable segment: its pages are mapped and its bytes copied. */
  method LoadSegment(m: Memory, root: nat, image: seq<bv8>, p: Phdr, bias: U64) returns (ok: bool)
    requires m.Shaped() && p.offset + p.filesz < TWO64
    modifies m.pmm`freeCount, m.pmm.bitmap, m.mem
    ensures m.Shaped() && (m.State(), ok) == V.LoadSegment(old(m.State()), root, image, p, bias)
  {
    if p.offset + p.filesz > |image| { return false; }
    var n := V.SegmentPages(p, bias);
    var mapped := MapPages(m, root, V.SegmentStart(p, bias), n, V.SegmentFlags(p));
    if mapped != n { return false; }
    ok := CopySegment(m, root, V.Vaddr(p, bias), V.FileBytes(image, p));
  }

  /** One round of the loop below. */
  method LoadNext(m: Memory, root: nat, image: seq<bv8>, ph: seq<Phdr>, bias: U64, i: nat, brk: U64, ghost u: Phys,
                  ghost fine: bool, ghost end: U64)
    returns (ok: bool, i': nat, brk': U64)
    requires m.Shaped() && i < |ph| && Plain(ph) && I.LoadsAll(m.State(), root, image, ph, bias, i, brk, u, fine, end)
    modifies m.pmm`freeCount, m.pmm.bitmap, m.mem
    ensures m.Shaped() && i' == i + 1
    ensures ok ==> I.LoadsAll(m.State(), root, image, ph, bias, i', brk', u, fine, end)
    ensures !ok ==> m.State() == u && !fine && end == 0
  {
    ghost var n, t, done, next := I.LoadUnfold(m.State(), root, image, ph, bias, i, brk, u, fine, end);
    ok, i', brk' := true, i + 1, brk;
    if ph[i].kind != PT_LOAD { return; }
    ok := LoadSegment(m, root, image, ph[i], bias);
    brk' := V.BumpBreak(ph[i], bias, brk);
    assert m.State() == t && ok == done;
  }

  /** The loop over the program headers */
  method LoadAll(m: Memory, root: nat, image: seq<bv8>, ph: seq<Phdr>, bias: U64) returns (ok: bool, brk: U64)
    requires m.Shaped() && Plain(ph)
    modifies m.pmm`freeCount, m.pmm.bitmap, m.mem
    ensures m.Shaped() && (m.State(), ok, brk) == V.LoadAll(old(m.State()), root, image, ph, bias, 0, 0)
  {
    ghost var (u, fine, end) := V.LoadAll(m.State(), root, image, ph, bias, 0, 0);
    var i := 0;
    brk := 0;
    while i < |ph|
      invariant m.Shaped() && i <= |ph| && I.LoadsAll(m.State(), root, image, ph, bias, i, brk, u, fine, end)
    {
      ok, i, brk := LoadNext(m, root, image, ph, bias, i, brk, u, fine, end);
      if !ok { return false, 0; }
    }
    ok := true;
  }

  /** `elf64_load_image` up to relocation */
  method LoadImage(m: Memory, root: nat, image: seq<bv8>) returns (r: Option<(U64, U64)>)
    requires m.Shaped() && NoWrap(image)
    modifies m.pmm`freeCount, m.pmm.bitmap, m.mem
    ensures m.Shaped() && (m.State(), r) == V.LoadImage(old(m.State()), root, image)
  {
    if !Accepted(image) { return None; }
    var eh, ph := ReadEhdr(image), Headers(image);
    var ok, brk := LoadAll(m, root, image, ph, LoadBias(eh));
    if !ok { return None; }
    return Some((Add64(eh.entry, LoadBias(eh)), brk));
  }
}

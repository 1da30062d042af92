/** `elf64_load_image` of src/elf.c up to relocation, on values. */
module ElfOps {
  import opened Basics
  import opened Align
  import opened Paging
  import opened PhysBytes
  import opened RunOps
  import opened ElfFile

  /** Where the loader puts a segment, and the pages it maps for it. */
  function Vaddr(p: Phdr, bias: U64): U64 {
    Add64(p.vaddr, bias)
  }

  function SegmentStart(p: Phdr, bias: U64): U64 {
    AlignDown(Vaddr(p, bias))
  }

  function SegmentPages(p: Phdr, bias: U64): nat {
    var start, end := SegmentStart(p, bias), AlignUp(Add64(Vaddr(p, bias), p.memsz));
    if start < end then (end - start) / PAGE_SIZE else 0
  }

  function SegmentFlags(p: Phdr): Flags {
    NO_FLAGS.(present := true, user := true, writable := p.write, noExec := !p.exec)
  }

  /** The length of the chunk copied to `va` when `left` bytes are left: up to the end of the page. */
  function Chunk(va: U64, left: nat): (n: nat)
    requires left > 0
    ensures 0 < n <= left && n <= PAGE_SIZE - va % PAGE_SIZE
  {
    var room := PAGE_SIZE - va % PAGE_SIZE;
    if room > left then left else room
  }

  /** The copy loop from `va` on. The address that `vmm_resolve` gives already holds the page offset, and
      the page offset is added to it again. */
  function CopyLoop(mem: seq<Frame>, root: nat, va: U64, src: seq<bv8>): (r: (seq<Frame>, bool))
    ensures |r.0| == |mem|
    decreases |src|, 1
  {
    if src == [] then (mem, true) else
    var pa := Resolve(mem, root, va);
    if pa.None? then (mem, false) else
    var n := Chunk(va, |src|);
    CopyRest(CopyBytes(mem, pa.value.0 + va % PAGE_SIZE, src[..n]), root, Add64(va, n), src[n..], |src|)
  }

  function CopyRest(mem: seq<Frame>, root: nat, va: U64, src: seq<bv8>, bound: nat): (r: (seq<Frame>, bool))
    requires |src| < bound
    ensures |r.0| == |mem|
    decreases bound, 0
  {
    CopyLoop(mem, root, va, src)
  }

  /** The segment's bytes in the file. */
  function FileBytes(image: seq<bv8>, p: Phdr): (b: seq<bv8>)
    requires p.offset + p.filesz <= |image|
    ensures |b| == p.filesz
  {
    image[p.offset..p.offset + p.filesz]
  }

  /** One loadable segment; the sum of its file offset and file size must not wrap. */
  function LoadSegment(s: Phys, root: nat, image: seq<bv8>, p: Phdr, bias: U64): (Phys, bool)
    requires p.offset + p.filesz < TWO64
  {
    if p.offset + p.filesz > |image| then (s, false) else
    var n := SegmentPages(p, bias);
    var mapped := MapRun(s, root, SegmentStart(p, bias), n, SegmentFlags(p));
    if mapped.1 != n then (mapped.0, false) else
    var copied := CopyLoop(mapped.0.mem, root, Vaddr(p, bias), FileBytes(image, p));
    (Phys(mapped.0.used, copied.0), copied.1)
  }

  /** The break behind a segment, given the break behind those before it. */
  function BumpBreak(p: Phdr, bias: U64, brk: U64): U64 {
    var end := Add64(Vaddr(p, bias), p.memsz);
    if end > brk then AlignUp(end) else brk
  }

  /** The loop over the program headers, from the `i`th on. */
  function LoadAll(s: Phys, root: nat, image: seq<bv8>, ph: seq<Phdr>, bias: U64, i: nat, brk: U64): (Phys, bool, U64)
    requires i <= |ph| && Plain(ph)
    decreases |ph| - i, 1
  {
    if i == |ph| then (s, true, brk)
    else if ph[i].kind != PT_LOAD then LoadMore((s, true), root, image, ph, bias, i + 1, brk)
    else LoadMore(LoadSegment(s, root, image, ph[i], bias), root, image, ph, bias, i + 1, BumpBreak(ph[i], bias, brk))
  }

  function LoadMore(done: (Phys, bool), root: nat, image: seq<bv8>, ph: seq<Phdr>, bias: U64, i: nat, brk: U64): (Phys, bool, U64)
    requires i <= |ph| && Plain(ph)
    decreases |ph| - i + 1, 0
  {
    if !done.1 then (done.0, false, 0) else LoadAll(done.0, root, image, ph, bias, i, brk)
  }

  /** Memory, and the entry point and the break if the image was loaded. */
  function LoadImage(s: Phys, root: nat, image: seq<bv8>): (Phys, Option<(U64, U64)>)
    requires NoWrap(image)
  {
    if !Accepted(image) then (s, None) else
    var eh := ReadEhdr(image);
    var r := LoadAll(s, root, image, Headers(image), LoadBias(eh), 0, 0);
    (r.0, if r.1 then Some((Add64(eh.entry, LoadBias(eh)), r.2)) else None)
  }
}

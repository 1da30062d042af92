/** The system calls that change a process's pages: anonymous `mmap` in src/syscall.c and the break
    in src/vmm.c, as they run, over any memory. */
module UserMemory {
  import opened Basics
  import opened Align
  import opened Paging
  import opened Spaces
  import opened RunOps
  import opened BreakLaws
  import opened ProcessOps
  import opened Vmm

  /** A frame is taken, cleared and mapped; it goes back when it cannot be mapped. */
  method MapFreshPage(m: Memory, root: nat, virt: U64, flags: Flags) returns (ok: bool)
    requires m.Shaped()
    modifies m.pmm`freeCount, m.pmm.bitmap, m.mem
    ensures m.Shaped() && (m.State(), ok) == MapFresh(old(m.State()), root, PathOf(PageOf(virt)), flags)
  {
    var f := m.AllocFrame(ZeroPage());
    ok := false;
    if f != 0 {
      ok := m.MapPage(root, virt, f, flags);
      if !ok { m.FreeFrames(f, 1); }
    }
  }

  /** A page is unmapped and its frame, if there was one, goes back. */
  method UnmapFreePage(m: Memory, root: nat, virt: U64)
    requires m.Shaped()
    modifies m.pmm`freeCount, m.pmm.bitmap, m.mem
    ensures m.Shaped() && m.State() == UnmapFree(old(m.State()), root, PathOf(PageOf(virt)))
  {
    var f := m.UnmapPage(root, virt);
    if f != 0 { m.FreeFrames(f, 1); }
  }

  /** One round of the loop below. */
  method MapNext(m: Memory, root: nat, va: U64, flags: Flags, ghost left: nat, ghost u: Phys, ghost k: nat)
    returns (ok: bool, next: U64, ghost left': nat, ghost k': nat)
    requires m.Shaped() && left > 0 && MapsTo(m.State(), root, va, left, flags, u, k)
    modifies m.pmm`freeCount, m.pmm.bitmap, m.mem
    ensures m.Shaped()
    ensures ok ==> left == left' + 1 && k == k' + 1 && MapsTo(m.State(), root, next, left', flags, u, k')
    ensures !ok ==> u == m.State() && k == 0
  {
    ghost var t := m.State();
    ok := MapFreshPage(m, root, va, flags);
    next := Add64(va, PAGE_SIZE);
    left' := left - 1;
    k' := MapRunUnfold(t, root, va, left, flags, PageOf(va), m.State(), ok, next, left', u, k);
  }

  /** The loop of `mmap_map_anonymous`, of `vmm_user_set_brk` and of the ELF loader: zeroed pages
      from `virt` on, up to the first failure. */
  method MapPages(m: Memory, root: nat, virt: U64, n: nat, flags: Flags) returns (done: nat)
    requires m.Shaped()
    modifies m.pmm`freeCount, m.pmm.bitmap, m.mem
    ensures m.Shaped() && (m.State(), done) == MapRun(old(m.State()), root, virt, n, flags)
  {
    var va := virt;
    done := 0;
    ghost var (u, k) := MapRun(m.State(), root, virt, n, flags);
    ghost var left, all := n, k;
    while done < n
      invariant m.Shaped() && done + left == n && done + k == all && MapsTo(m.State(), root, va, left, flags, u, k)
    {
      var ok;
      ok, va, left, k := MapNext(m, root, va, flags, left, u, k);
      if !ok { return; }
      done := done + 1;
    }
  }

  /** The loops that give pages back. */
  method UnmapPages(m: Memory, root: nat, virt: U64, n: nat)
    requires m.Shaped()
    modifies m.pmm`freeCount, m.pmm.bitmap, m.mem
    ensures m.Shaped() && m.State() == UnmapRun(old(m.State()), root, virt, n)
  {
    var va := virt;
    ghost var u := UnmapRun(m.State(), root, virt, n);
    for i := 0 to n
      invariant m.Shaped() && UnmapsTo(m.State(), root, va, n - i, u)
    {
      ghost var t := m.State();
      UnmapFreePage(m, root, va);
      var next := Add64(va, PAGE_SIZE);
      UnmapRunUnfold(t, root, va, n - i, PageOf(va), m.State(), next, n - i - 1, u);
      va := next;
    }
  }

  /** The memory-related fields of a thread. */
  class Process {
    const isUser: bool
    const root: nat
    const brkStart: U64
    var brkEnd: U64
    var mmapBase: U64

    constructor (isUser: bool, root: nat, brk: U64, mmapBase: U64)
      ensures this.isUser == isUser && this.root == root && brkStart == brkEnd == brk && this.mmapBase == mmapBase
    {
      this.isUser, this.root, brkStart, brkEnd, this.mmapBase := isUser, root, brk, brk, mmapBase;
    }

    /** `mmap_map_anonymous`: all of the pages, or none. */
    method MmapAnonymous(m: Memory, addr: U64, len: U64, prot: int) returns (base: Option<U64>)
      requires m.Shaped()
      modifies m.pmm`freeCount, m.pmm.bitmap, m.mem, this`mmapBase
      ensures m.Shaped()
      ensures !isUser ==> base.None? && m.State() == old(m.State()) && mmapBase == old(mmapBase)
      ensures isUser ==>
                (m.State(), base, mmapBase) == Mmap(old(m.State()), root, old(mmapBase), addr, len, MmapFlags(prot))
    {
      if !isUser || len == 0 { return None; }
      var start, n := MmapStart(mmapBase, addr), MmapPages(len);
      var mapped := MapPages(m, root, start, n, MmapFlags(prot));
      if mapped != n {
        UnmapPages(m, root, start, mapped);
        return None;
      }
      if addr == 0 { mmapBase := Add64(start, AlignUp(len)); }
      return Some(start);
    }

    /** `vmm_user_set_brk`: the pages between the old and the new break come or go. A growth that
        fails keeps the pages it has mapped and leaves the break where it was. */
    method SetBreak(m: Memory, newEnd: U64) returns (ok: bool)
      requires m.Shaped()
      modifies m.pmm`freeCount, m.pmm.bitmap, m.mem, this`brkEnd
      ensures m.Shaped()
      ensures brkEnd == if ok then newEnd else old(brkEnd)
      ensures !isUser ==> !ok && m.State() == old(m.State())
      ensures isUser ==> (m.State(), ok) == SetBrk(old(m.State()), root, brkStart, old(brkEnd), newEnd)
    {
      if !isUser { return false; }
      var end := BreakTarget(brkStart, newEnd);
      var cur := AlignUp(brkEnd);
      if end > cur {
        var n := end / PAGE_SIZE - cur / PAGE_SIZE;
        var done := MapPages(m, root, cur, n, HEAP_FLAGS);
        if done != n { return false; }
      } else {
        UnmapPages(m, root, end, cur / PAGE_SIZE - end / PAGE_SIZE);
      }
      brkEnd := newEnd;
      return true;
    }
  }
}

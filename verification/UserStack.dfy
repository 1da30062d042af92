/** The user stack that `thread_create_user` and `SYS_execve` give a space, as it is set up. */
module UserStack {
  import opened Align
  import opened Paging
  import opened Vmm
  import V = StackOps
  import Pmm

  /** `pmm_alloc_pages`, and the `memset` that follows. */
  method AllocCleared(m: Memory, n: nat) returns (k: nat)
    requires m.Shaped()
    modifies m.pmm`freeCount, m.pmm.bitmap, m.mem
    ensures m.Shaped() && (m.State(), k) == V.AllocRun(old(m.State()), n)
  {
    ghost var used := m.State().used;
    var addr := m.pmm.AllocPages(n);
    k := addr / PAGE_SIZE;
    if k == 0 { return; }
    Pmm.AllocFirstFit(used, n);
    ghost var was := m.mem[..];
    for f := k to k + n
      modifies m.mem
      invariant forall g :: 0 <= g < m.mem.Length ==> m.mem[g] == if k <= g < f then ZeroPage() else was[g]
    {
      m.mem[f] := ZeroPage();
    }
    assert m.mem[..] == V.ZeroedRun(was, k, n);
  }

  /** One round of the loop below. */
  method MapNext(m: Memory, root: nat, va: U64, frame: nat, flags: Flags, ghost left: nat, ghost u: Phys, ghost j: nat)
    returns (ok: bool, next: U64, frame': nat, ghost left': nat, ghost j': nat)
    requires m.Shaped() && left > 0 && V.RangesTo(m.State(), root, va, frame, left, flags, u, j)
    modifies m.pmm`freeCount, m.pmm.bitmap, m.mem
    ensures m.Shaped()
    ensures ok ==> left == left' + 1 && j == j' + 1 && V.RangesTo(m.State(), root, next, frame', left', flags, u, j')
    ensures !ok ==> u == m.State() && j == 0
  {
    ghost var t := m.State();
    ok := m.MapPage(root, va, frame, flags);
    next, frame', left' := Add64(va, PAGE_SIZE), frame + 1, left - 1;
    j' := V.RangeUnfold(t, root, va, frame, left, flags, PageOf(va), m.State(), ok, next, frame', left', u, j);
  }

  /** `vmm_map_range` */
  method MapRange(m: Memory, root: nat, virt: U64, k: nat, n: nat, flags: Flags) returns (done: nat)
    requires m.Shaped()
    modifies m.pmm`freeCount, m.pmm.bitmap, m.mem
    ensures m.Shaped() && (m.State(), done) == V.MapRange(old(m.State()), root, virt, k, n, flags)
  {
    var va, frame := virt, k;
    done := 0;
    ghost var (u, j) := V.MapRange(m.State(), root, virt, k, n, flags);
    ghost var left, all := n, j;
    while done < n
      invariant m.Shaped() && done + left == n && done + j == all && V.RangesTo(m.State(), root, va, frame, left, flags, u, j)
    {
      var ok;
      ok, va, frame, left, j := MapNext(m, root, va, frame, flags, left, u, j);
      if !ok { return; }
      done := done + 1;
    }
  }

  /** A run that cannot be mapped as a whole goes back. */
  method GiveStack(m: Memory, root: nat) returns (ok: bool)
    requires m.Shaped()
    modifies m.pmm`freeCount, m.pmm.bitmap, m.mem
    ensures m.Shaped() && (m.State(), ok) == V.GiveStack(old(m.State()), root)
  {
    var k := AllocCleared(m, V.USTACK_PAGES);
    if k == 0 { return false; }
    var done := MapRange(m, root, V.USER_STACK_BASE, k, V.USTACK_PAGES, V.STACK_FLAGS);
    if done != V.USTACK_PAGES {
      m.FreeFrames(k, V.USTACK_PAGES);
      return false;
    }
    return true;
  }
}

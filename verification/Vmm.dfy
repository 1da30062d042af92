/** src/vmm.c as it runs: page tables written in place in physical frames. Each method is tied
    to the function on values that the laws of PageMapLaws and Spaces are about. */
module Vmm {
  import opened Basics
  import opened Align
  import opened Paging
  import opened Spaces
  import opened SpaceTable
  import SpaceLife
  import Pmm

  class Memory {
    const pmm: Pmm.FrameAllocator
    const mem: array<Frame>
    const table: array<Space>
    var kernelRoot: nat

    ghost predicate Shaped()
      reads this, pmm, pmm.bitmap
    {
      pmm.Valid() && mem.Length == Pmm.MAX_PAGES && table.Length == MAX_USER_SPACES
    }

    ghost function State(): (s: Phys)
      requires Shaped()
      reads this, pmm, pmm.bitmap, mem
    {
      Phys(pmm.Bits(), mem[..])
    }

    constructor (pmm: Pmm.FrameAllocator)
      requires pmm.Valid()
      ensures this.pmm == pmm && fresh(mem) && fresh(table) && Shaped()
      ensures forall i :: 0 <= i < table.Length ==> table[i] == Space(0, 0)
    {
      this.pmm := pmm;
      mem := new Frame[Pmm.MAX_PAGES](_ => ZeroPage());
      table := new Space[MAX_USER_SPACES](_ => Space(0, 0));
      kernelRoot := 0;
    }

    method ReadEntry(f: nat, i: nat) returns (e: Entry)
      requires Shaped()
      ensures e == EntryAt(State().mem, f, i)
    {
      e := if f < mem.Length && mem[f].Table? && i < ENTRIES then mem[f].es[i] else EMPTY;
    }

    method WriteEntry(f: nat, i: nat, e: Entry)
      requires Shaped()
      modifies mem
      ensures State() == Phys(old(State()).used, SetEntry(old(State()).mem, f, i, e))
    {
      if f < mem.Length && mem[f].Table? && i < ENTRIES {
        mem[f] := Table(mem[f].es[i := e]);
      }
    }

    /** A frame cleared by `memset`, to serve as a table or as a page. */
    method AllocFrame(content: Frame) returns (f: nat)
      requires Shaped()
      modifies pmm`freeCount, pmm.bitmap, mem
      ensures Shaped() && (State(), f) == Paging.AllocFrame(old(State()), content)
    {
      var addr := pmm.AllocPages(1);
      f := addr / PAGE_SIZE;
      if f != 0 && f < mem.Length { mem[f] := content; } else { f := 0; }
    }

    method FreeFrames(f: nat, n: nat)
      requires Shaped()
      modifies pmm`freeCount, pmm.bitmap
      ensures Shaped() && State() == Paging.FreeFrames(old(State()), f, n)
    {
      pmm.FreePages(f * PAGE_SIZE, n);
    }

    method EnsureTable(parent: nat, i: nat, flags: Flags) returns (t: Option<nat>)
      requires Shaped()
      modifies pmm`freeCount, pmm.bitmap, mem
      ensures Shaped() && (State(), t) == Paging.EnsureTable(old(State()), parent, i, flags)
    {
      var e := ReadEntry(parent, i);
      if e.flags.present { return Some(e.frame); }
      var f := AllocFrame(ZeroTable());
      if f == 0 { return None; }
      WriteEntry(parent, i, Entry(f, flags));
      return Some(f);
    }

    method MapPage(root: nat, virt: U64, frame: nat, flags: Flags) returns (ok: bool)
      requires Shaped()
      modifies pmm`freeCount, pmm.bitmap, mem
      ensures Shaped()
      ensures (State(), ok) == Paging.MapPage(old(State()), root, PathOf(PageOf(virt)), frame, flags)
    {
      var v := PageOf(virt);
      PathIndices(v);
      var tf := TableFlags(flags.user);
      ghost var s, p := State(), PathOf(v).up;
      assert Ensure(s, root, p.up.up.up, tf) == (s, Some(root));
      var t3 := EnsureTable(root, L4(v), tf);
      assert Ensure(s, root, p.up.up, tf) == (State(), t3);
      if t3.None? { assert Ensure(s, root, p.up, tf).1.None?; return false; }
      var t2 := EnsureTable(t3.value, L3(v), tf);
      assert Ensure(s, root, p.up, tf) == (State(), t2);
      if t2.None? { return false; }
      var t1 := EnsureTable(t2.value, L2(v), tf);
      assert Ensure(s, root, p, tf) == (State(), t1);
      if t1.None? { return false; }
      var e := ReadEntry(t1.value, L1(v));
      if e.flags.present { return false; }
      WriteEntry(t1.value, L1(v), Entry(frame, flags.(present := true)));
      return true;
    }

    method UnmapPage(root: nat, virt: U64) returns (frame: nat)
      requires Shaped()
      modifies mem
      ensures (State(), frame) == Paging.UnmapPage(old(State()), root, PathOf(PageOf(virt)))
    {
      var v := PageOf(virt);
      PathIndices(v);
      ghost var m, p := State().mem, PathOf(v).up;
      assert Walk(m, root, p.up.up.up) == Some(root);
      var e4 := ReadEntry(root, L4(v));
      if !e4.flags.present { assert Walk(m, root, p.up.up).None? && Walk(m, root, p.up).None?; return 0; }
      assert Walk(m, root, p.up.up) == Some(e4.frame);
      var e3 := ReadEntry(e4.frame, L3(v));
      if !e3.flags.present { assert Walk(m, root, p.up).None?; return 0; }
      assert Walk(m, root, p.up) == Some(e3.frame);
      var e2 := ReadEntry(e3.frame, L2(v));
      if !e2.flags.present { assert Walk(m, root, p).None?; return 0; }
      assert Walk(m, root, p) == Some(e2.frame);
      var e1 := ReadEntry(e2.frame, L1(v));
      if !e1.flags.present { return 0; }
      WriteEntry(e2.frame, L1(v), EMPTY);
      return e1.frame;
    }

    method Resolve(root: nat, virt: U64) returns (r: Option<(nat, Flags)>)
      requires Shaped()
      ensures r == Paging.Resolve(State().mem, root, virt)
    {
      var v := PageOf(virt);
      var e4 := ReadEntry(root, L4(v));
      if !e4.flags.present { return None; }
      var e3 := ReadEntry(e4.frame, L3(v));
      if !e3.flags.present { return None; }
      if e3.flags.huge { return Some((e3.frame * PAGE_SIZE + virt % 0x4000_0000, e3.flags)); }
      var e2 := ReadEntry(e3.frame, L2(v));
      if !e2.flags.present { return None; }
      if e2.flags.huge { return Some((e2.frame * PAGE_SIZE + virt % 0x20_0000, e2.flags)); }
      var e1 := ReadEntry(e2.frame, L1(v));
      if !e1.flags.present { return None; }
      return Some((e1.frame * PAGE_SIZE + virt % PAGE_SIZE, e1.flags));
    }

    method FreePt(t: nat)
      requires Shaped()
      modifies pmm`freeCount, pmm.bitmap, mem
      ensures Shaped() && State() == FreeTable(old(State()), t, 3, 0)
    {
      for i := 0 to ENTRIES
        invariant Shaped() && FreeTable(State(), t, 3, i) == FreeTable(old(State()), t, 3, 0)
      {
        var e := ReadEntry(t, i);
        if e.flags.present {
          FreeFrames(e.frame, 1);
          WriteEntry(t, i, EMPTY);
        }
      }
      FreeFrames(t, 1);
    }

    method FreePd(t: nat)
      requires Shaped()
      modifies pmm`freeCount, pmm.bitmap, mem
      ensures Shaped() && State() == FreeTable(old(State()), t, 2, 0)
    {
      for i := 0 to ENTRIES
        invariant Shaped() && FreeTable(State(), t, 2, i) == FreeTable(old(State()), t, 2, 0)
      {
        var e := ReadEntry(t, i);
        if e.flags.present {
          if e.flags.huge { FreeFrames(e.frame, 512); } else { FreePt(e.frame); }
          WriteEntry(t, i, EMPTY);
        }
      }
      FreeFrames(t, 1);
    }

    method FreePdpt(t: nat)
      requires Shaped()
      modifies pmm`freeCount, pmm.bitmap, mem
      ensures Shaped() && State() == FreeTable(old(State()), t, 1, 0)
    {
      for i := 0 to ENTRIES
        invariant Shaped() && FreeTable(State(), t, 1, i) == FreeTable(old(State()), t, 1, 0)
      {
        var e := ReadEntry(t, i);
        if e.flags.present {
          if e.flags.huge { FreeFrames(e.frame, 512 * 512); } else { FreePd(e.frame); }
          WriteEntry(t, i, EMPTY);
        }
      }
      FreeFrames(t, 1);
    }

    method DestroyUserSpace(root: nat)
      requires Shaped()
      modifies pmm`freeCount, pmm.bitmap, mem
      ensures Shaped()
      ensures State() == if root == 0 || root == kernelRoot then old(State()) else Destroy(old(State()), root)
    {
      if root == 0 || root == kernelRoot { return; }
      for i := 1 to ENTRIES
        invariant Shaped() && DestroyFrom(State(), root, i) == Destroy(old(State()), root)
      {
        var e := ReadEntry(root, i);
        if e.flags.present {
          FreePdpt(e.frame);
          WriteEntry(root, i, EMPTY);
        }
      }
      FreeFrames(root, 1);
    }

    ghost function Spaces(): SpaceLife.Vm
      requires Shaped()
      reads this, pmm, pmm.bitmap, mem, table
    {
      SpaceLife.Vm(State(), table[..])
    }

    method FindSpaceSlot(cr3: nat) returns (k: nat)
      requires Shaped()
      ensures k == FindSlot(table[..], cr3)
    {
      for i := 0 to table.Length
        invariant FindSlot(table[..], cr3, i) == FindSlot(table[..], cr3)
      {
        if table[i].cr3 == cr3 && table[i].refs > 0 { return i; }
      }
      return table.Length;
    }

    method FindFreeSpaceSlot() returns (k: nat)
      requires Shaped()
      ensures k == FindFree(table[..])
    {
      for i := 0 to table.Length
        invariant FindFree(table[..], i) == FindFree(table[..])
      {
        if table[i].refs == 0 { return i; }
      }
      return table.Length;
    }

    method CreateUserSpace() returns (root: nat)
      requires Shaped()
      modifies pmm`freeCount, pmm.bitmap, mem, table
      ensures Shaped() && (Spaces(), root) == SpaceLife.CreateSpace(old(Spaces()), kernelRoot)
    {
      root := AllocFrame(ZeroTable());
      if root == 0 { return; }
      var e := ReadEntry(kernelRoot, 0);
      WriteEntry(root, 0, e);
      var slot := FindFreeSpaceSlot();
      if slot < table.Length {
        table[slot] := Space(root, 1);
      } else {
        FreeFrames(root, 1);
        return 0;
      }
    }

    method RetainUserSpace(cr3: nat)
      requires Shaped()
      modifies table
      ensures Spaces() == SpaceLife.RetainSpace(old(Spaces()), cr3, kernelRoot)
    {
      if cr3 == 0 || cr3 == kernelRoot { return; }
      var slot := FindSpaceSlot(cr3);
      if slot < table.Length {
        table[slot] := Space(cr3, table[slot].refs + 1);
        return;
      }
      slot := FindFreeSpaceSlot();
      if slot < table.Length { table[slot] := Space(cr3, 2); }
    }

    method ReleaseUserSpace(cr3: nat)
      requires Shaped()
      modifies pmm`freeCount, pmm.bitmap, mem, table
      ensures Shaped() && Spaces() == SpaceLife.ReleaseSpace(old(Spaces()), cr3, kernelRoot)
    {
      if cr3 == 0 || cr3 == kernelRoot { return; }
      var destroy := false;
      var slot := FindSpaceSlot(cr3);
      if slot < table.Length {
        table[slot] := Space(table[slot].cr3, table[slot].refs - 1);
        if table[slot].refs == 0 {
          table[slot] := Space(0, 0);
          destroy := true;
        }
      }
      if destroy { DestroyUserSpace(cr3); }
    }
  }
}

/** Huge pages, which the kernel's own space has: how they resolve, and how a table of them is torn down. */
module HugePages {
  import opened Basics
  import opened Align
  import opened Paging
  import opened Spaces

  const GIB: nat := 0x4000_0000
  const TWO_MIB: nat := 0x20_0000

  /** The entries for an address in the tables of levels 4, 3 and 2. */
  function Entry4(mem: seq<Frame>, root: nat, virt: U64): Entry { EntryAt(mem, root, virt / (512 * GIB) % 512) }
  function Entry3(mem: seq<Frame>, root: nat, virt: U64): Entry { EntryAt(mem, Entry4(mem, root, virt).frame, virt / GIB % 512) }
  function Entry2(mem: seq<Frame>, root: nat, virt: U64): Entry { EntryAt(mem, Entry3(mem, root, virt).frame,
                  virt / TWO_MIB % 512) }

  lemma Indices(virt: U64)
    ensures var v := PageOf(virt);
            && L4(v) == virt / (512 * GIB) % 512 && L3(v) == virt / GIB % 512 && L2(v) == virt / TWO_MIB % 512
  {
    var p := virt / PAGE_SIZE;
    assert p / 512 == virt / TWO_MIB;
    assert p / 0x4_0000 == virt / GIB;
    assert p / 0x800_0000 == virt / (512 * GIB);
    LowDigits(p);
  }

  lemma LowDigits(p: nat)
    ensures var v := p % 0x10_0000_0000;
            && v / 0x800_0000 % 512 == p / 0x800_0000 % 512 && v / 0x4_0000 % 512 == p / 0x4_0000 % 512 && v / 512 % 512 == p / 512 % 512
  {
    var h, v := p / 0x10_0000_0000, p % 0x10_0000_0000;
    assert p == 0x10_0000_0000 * h + v;
    assert p / 0x800_0000 == 512 * h + v / 0x800_0000;
    assert p / 0x4_0000 == 0x4_0000 * h + v / 0x4_0000;
    assert p / 512 == 0x800_0000 * h + v / 512;
    Multiple(v / 0x800_0000, h);
    Multiple(v / 0x4_0000, 512 * h);
    Multiple(v / 512, 0x4_0000 * h);
  }

  lemma Multiple(x: nat, k: nat)
    ensures (512 * k + x) % 512 == x % 512
  {
  }

  /** An address in a page of 1 GiB resolves as far behind its frame as it is behind the beginning of the page. */
  lemma GiantPage(mem: seq<Frame>, root: nat, virt: U64, base: U64)
    requires base % GIB == 0 && base <= virt < base + GIB
    requires Entry4(mem, root, virt).flags.present && Entry3(mem, root, virt).flags.present && Entry3(mem, root, virt).flags.huge
    ensures Resolve(mem, root, virt) == Some((Entry3(mem, root, virt).frame * PAGE_SIZE + (virt - base), Entry3(mem, root, virt).flags))
  {
    Indices(virt);
    GiantOffset(virt, base);
  }

  lemma GiantOffset(virt: nat, base: nat)
    requires base % GIB == 0 && base <= virt < base + GIB
    ensures virt % 0x4000_0000 == virt - base
  {
  }

  lemma LargeOffset(virt: nat, base: nat)
    requires base % TWO_MIB == 0 && base <= virt < base + TWO_MIB
    ensures virt % 0x20_0000 == virt - base
  {
  }

  /** The same for a page of 2 MiB. */
  lemma LargePage(mem: seq<Frame>, root: nat, virt: U64, base: U64)
    requires base % TWO_MIB == 0 && base <= virt < base + TWO_MIB
    requires Entry4(mem, root, virt).flags.present && Entry3(mem, root, virt).flags.present && !Entry3(mem, root, virt).flags.huge
    requires Entry2(mem, root, virt).flags.present && Entry2(mem, root, virt).flags.huge
    ensures Resolve(mem, root, virt) == Some((Entry2(mem, root, virt).frame * PAGE_SIZE + (virt - base), Entry2(mem, root, virt).flags))
  {
    Indices(virt);
    LargeOffset(virt, base);
  }

  // ---------------------------------------------------------------------------------------
  // Teardown
  // ---------------------------------------------------------------------------------------

  /** The frames of a huge page below a table at this depth. */
  function HugeFrames(depth: nat): nat {
    if depth == 2 then 512 else 262144
  }

  /** Frame `f` is in a huge page that an entry from `i` on points to. */
  predicate InHuge(mem: seq<Frame>, t: nat, depth: nat, i: nat, f: nat) {
    exists j: nat :: i <= j < ENTRIES && PresentAt(mem, t, j) && EntryAt(mem, t, j).frame <= f < EntryAt(mem, t, j).frame + HugeFrames(depth)
  }

  predicate OnlyHuge(mem: seq<Frame>, t: nat, i: nat) {
    forall j: nat :: i <= j < ENTRIES && PresentAt(mem, t, j) ==> EntryAt(mem, t, j).flags.huge && EntryAt(mem, t, j).frame > 0
  }

  lemma Cleared(mem: seq<Frame>, t: nat, i: nat, m: seq<Frame>, j: nat)
    requires t < |mem| && mem[t].Table? && i < j && m == SetEntry(mem, t, i, EMPTY)
    ensures EntryAt(m, t, j) == EntryAt(mem, t, j) && |m| == |mem| && m[t].Table?
  {
  }

  /** The teardown of a table that holds huge pages only frees the table and all the frames of those pages, and
      nothing else. */
  lemma {:induction false} HugeFreed(s: Phys, t: nat, depth: nat, i: nat)
    requires 1 <= depth <= 2 && i <= ENTRIES && 0 < t < |s.mem| && s.mem[t].Table? && OnlyHuge(s.mem, t, i)
    ensures var u := FreeTable(s, t, depth, i);
            |u.used| == |s.used| && forall f :: 0 <= f < |s.used| ==> u.used[f] == (s.used[f] && f != t && !InHuge(s.mem, t, depth, i, f))
    decreases ENTRIES - i
  {
    if i < ENTRIES {
      var e := EntryAt(s.mem, t, i);
      if PresentAt(s.mem, t, i) {
        var s1 := FreeFrames(s, e.frame, HugeFrames(depth));
        var m := SetEntry(s1.mem, t, i, EMPTY);
        forall j: nat | i < j ensures EntryAt(m, t, j) == EntryAt(s.mem, t, j) && m[t].Table? && |m| == |s.mem| { Cleared(s.mem, t, i, m, j); }
        assert EntryAt(m, t, i + 1) == EntryAt(s.mem, t, i + 1);
        HugeFreed(Phys(s1.used, m), t, depth, i + 1);
        forall f: nat ensures InHuge(s.mem, t, depth, i, f) <==> InHuge(m, t, depth, i + 1, f) || e.frame <= f < e.frame + HugeFrames(depth) {
          HugeNext(s.mem, m, t, depth, i, f, e);
        }
      } else {
        HugeFreed(s, t, depth, i + 1);
        forall f: nat ensures InHuge(s.mem, t, depth, i, f) <==> InHuge(s.mem, t, depth, i + 1, f) {}
      }
    }
  }

  lemma HugeNext(mem: seq<Frame>, m: seq<Frame>, t: nat, depth: nat, i: nat, f: nat, e: Entry)
    requires i < ENTRIES && PresentAt(mem, t, i) && e == EntryAt(mem, t, i)
    requires forall j: nat :: i < j ==> EntryAt(m, t, j) == EntryAt(mem, t, j)
    ensures InHuge(mem, t, depth, i, f) <==> InHuge(m, t, depth, i + 1, f) || e.frame <= f < e.frame + HugeFrames(depth)
  {
    if InHuge(mem, t, depth, i, f) {
      var j: nat :| i <= j < ENTRIES && PresentAt(mem, t, j) && EntryAt(mem, t, j).frame <= f < EntryAt(mem, t, j).frame + HugeFrames(depth);
      assert j > i ==> PresentAt(m, t, j);
    }
    if InHuge(m, t, depth, i + 1, f) {
      var j: nat :| i + 1 <= j < ENTRIES && PresentAt(m, t, j) && EntryAt(m, t, j).frame <= f < EntryAt(m, t, j).frame + HugeFrames(depth);
      assert PresentAt(mem, t, j);
    }
  }
}

/** Four-level page tables in physical frames: the table code of src/vmm.c on values.

    A frame number stands for the physical address it begins at divided by 4096, and a virtual
    page number for bits 12 to 47 of a virtual address, the only bits the walk looks at. */
module Paging {
  import opened Basics
  import opened Align
  import Pmm

  const ENTRIES: nat := 512

  datatype Flags = Flags(
    present: bool, writable: bool, user: bool, writeThrough: bool, cacheDisable: bool,
    accessed: bool, dirty: bool, huge: bool, global: bool, noExec: bool)

  const NO_FLAGS := Flags(false, false, false, false, false, false, false, false, false, false)

  datatype Entry = Entry(frame: nat, flags: Flags)

  const EMPTY := Entry(0, NO_FLAGS)

  type EntryTable = es: seq<Entry> | |es| == 512 witness seq(512, _ => EMPTY)
  type Bytes = bs: seq<bv8> | |bs| == 4096 witness seq(4096, _ => 0)

  /** What a frame holds: the kernel uses each frame either as a page table or as data. */
  datatype Frame = Table(es: EntryTable) | Data(bytes: Bytes)

  function ZeroTable(): (r: Frame)
    ensures r.Table? && forall i :: 0 <= i < 512 ==> r.es[i] == EMPTY
  {
    Table(seq(512, _ => EMPTY))
  }

  function ZeroPage(): (r: Frame)
    ensures r.Data? && forall i :: 0 <= i < 4096 ==> r.bytes[i] == 0
  {
    Data(seq(4096, _ => 0))
  }

  /** Physical memory: the allocation bitmap and the contents of every frame. */
  datatype Phys = Phys(used: seq<bool>, mem: seq<Frame>)

  // ---------------------------------------------------------------------------------------
  // The operations of src/vmm.c
  // ---------------------------------------------------------------------------------------

  function EntryAt(mem: seq<Frame>, f: nat, i: nat): Entry {
    if f < |mem| && mem[f].Table? && i < ENTRIES then mem[f].es[i] else EMPTY
  }

  predicate PresentAt(mem: seq<Frame>, f: nat, i: nat) {
    EntryAt(mem, f, i).flags.present
  }

  function SetEntry(mem: seq<Frame>, f: nat, i: nat, e: Entry): (r: seq<Frame>)
    ensures |r| == |mem|
  {
    if f < |mem| && mem[f].Table? && i < ENTRIES then mem[f := Table(mem[f].es[i := e])] else mem
  }

  /** Allocates one frame and fills it with `content`; frame 0 reports failure. */
  function AllocFrame(s: Phys, content: Frame): (Phys, nat) {
    var (u, f) := Pmm.Alloc(s.used, 1);
    if f == 0 || f >= |s.mem| then (Phys(u, s.mem), 0) else (Phys(u, s.mem[f := content]), f)
  }

  function FreeFrames(s: Phys, f: nat, n: nat): Phys {
    Phys(Pmm.Free(s.used, f, n), s.mem)
  }

  /** `ensure_table` */
  function EnsureTable(s: Phys, parent: nat, i: nat, flags: Flags): (Phys, Option<nat>) {
    if PresentAt(s.mem, parent, i) then (s, Some(EntryAt(s.mem, parent, i).frame))
    else
      var (s1, f) := AllocFrame(s, ZeroTable());
      if f == 0 then (s1, None)
      else (Phys(s1.used, SetEntry(s1.mem, parent, i, Entry(f, flags))), Some(f))
  }

  function TableFlags(user: bool): Flags {
    NO_FLAGS.(present := true, writable := true, user := user)
  }

  /** A place in a radix tree of tables: the indices taken from the root down. */
  datatype Path = Top | Sub(up: Path, i: nat)

  // The index of page `v` in the tables of levels 4 (the root) to 1.
  function L4(v: nat): nat { v / 0x800_0000 % 512 }
  function L3(v: nat): nat { v / 0x4_0000 % 512 }
  function L2(v: nat): nat { v / 512 % 512 }
  function L1(v: nat): nat { v % 512 }

  /** The page number the table walk extracts from a virtual address. */
  function PageOf(virt: U64): nat {
    virt / PAGE_SIZE % 0x10_0000_0000
  }

  /** The path of page `v`: its base-512 digits, the last one its place in the last-level table. */
  function PathOf(v: nat): (p: Path)
    ensures p.Sub?
  {
    Digits(v, 4)
  }

  function Digits(v: nat, n: nat): (p: Path)
    ensures p.Sub? <==> n > 0
  {
    if n == 0 then Top else Sub(Digits(v / 512, n - 1), v % 512)
  }

  /** The four indices that the table walk extracts from a page number are the digits. */
  lemma PathIndices(v: nat)
    ensures PathOf(v) == Sub(Sub(Sub(Sub(Top, L4(v)), L3(v)), L2(v)), L1(v))
  {
    assert v / 512 / 512 == v / 0x4_0000 && v / 512 / 512 / 512 == v / 0x800_0000;
    assert Digits(v / 0x800_0000, 1) == Sub(Top, L4(v));
    assert Digits(v / 0x4_0000, 2) == Sub(Sub(Top, L4(v)), L3(v));
    assert Digits(v / 512, 3) == Sub(Sub(Sub(Top, L4(v)), L3(v)), L2(v));
  }

  /** The `ensure_table` calls of `map_page_inner`, root first: the table at `p`. */
  function Ensure(s: Phys, root: nat, p: Path, flags: Flags): (Phys, Option<nat>) {
    match p
    case Top => (s, Some(root))
    case Sub(up, i) =>
      var (s1, t) := Ensure(s, root, up, flags);
      if t.None? then (s1, None) else EnsureTable(s1, t.value, i, flags)
  }

  /** `map_page_inner` for the page at `p`. */
  function MapPage(s: Phys, root: nat, p: Path, frame: nat, flags: Flags): (Phys, bool)
    requires p.Sub?
  {
    var (s1, t) := Ensure(s, root, p.up, TableFlags(flags.user));
    if t.None? || PresentAt(s1.mem, t.value, p.i) then (s1, false)
    else (Phys(s1.used, SetEntry(s1.mem, t.value, p.i, Entry(frame, flags.(present := true)))), true)
  }

  /** The frame at `p`, found without testing the huge bit. */
  function Walk(mem: seq<Frame>, root: nat, p: Path): Option<nat> {
    match p
    case Top => Some(root)
    case Sub(up, i) =>
      var t := Walk(mem, root, up);
      if t.None? || !PresentAt(mem, t.value, i) then None else Some(EntryAt(mem, t.value, i).frame)
  }

  /** `vmm_unmap_page`: the state after, and the frame that was mapped (0 if none). */
  function UnmapPage(s: Phys, root: nat, p: Path): (Phys, nat)
    requires p.Sub?
  {
    var t := Walk(s.mem, root, p.up);
    if t.None? || !PresentAt(s.mem, t.value, p.i) then (s, 0)
    else (Phys(s.used, SetEntry(s.mem, t.value, p.i, EMPTY)), EntryAt(s.mem, t.value, p.i).frame)
  }

  /** `vmm_resolve`: the physical address and the entry that gave it. */
  function Resolve(mem: seq<Frame>, root: nat, virt: U64): Option<(nat, Flags)> {
    ResolvePage(mem, root, PageOf(virt), virt)
  }

  function ResolvePage(mem: seq<Frame>, root: nat, v: nat, virt: U64): Option<(nat, Flags)> {
    var e4 := EntryAt(mem, root, L4(v));
    if !e4.flags.present then None else
    var e3 := EntryAt(mem, e4.frame, L3(v));
    if !e3.flags.present then None else
    if e3.flags.huge then Some((e3.frame * PAGE_SIZE + virt % 0x4000_0000, e3.flags)) else
    var e2 := EntryAt(mem, e3.frame, L2(v));
    if !e2.flags.present then None else
    if e2.flags.huge then Some((e2.frame * PAGE_SIZE + virt % 0x20_0000, e2.flags)) else
    var e1 := EntryAt(mem, e2.frame, L1(v));
    if !e1.flags.present then None else Some((e1.frame * PAGE_SIZE + virt % PAGE_SIZE, e1.flags))
  }
}

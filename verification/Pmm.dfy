/** The physical frame allocator of src/pmm.c: a bitmap with one bit per 4 KiB frame. */
module Pmm {
  import opened Align

  const MAX_PAGES: nat := 0x10_0000
  const BITMAP_BYTES: nat := 0x2_0000
  const MAX_PHYS_BYTES: nat := 0x1_0000_0000

  // ---------------------------------------------------------------------------------------
  // Specification: a bitmap is a sequence of booleans, true meaning "used".
  // ---------------------------------------------------------------------------------------

  /** The number of clear bits below `n`. */
  function FreeBelow(used: seq<bool>, n: nat): (c: nat)
    requires n <= |used|
    ensures c <= n
  {
    if n == 0 then 0 else FreeBelow(used, n - 1) + (if used[n - 1] then 0 else 1)
  }

  function CountFree(used: seq<bool>): nat {
    FreeBelow(used, |used|)
  }

  predicate FreeRun(used: seq<bool>, start: nat, n: nat) {
    && start + n <= |used|
    && forall j :: start <= j < start + n ==> !used[j]
  }

  /** `used` with the bits of [start, start + n) that exist set to `v`. */
  function Mark(used: seq<bool>, start: nat, n: nat, v: bool): (r: seq<bool>)
    ensures |r| == |used|
    ensures forall j :: 0 <= j < |used| ==> r[j] == if start <= j < start + n then v else used[j]
  {
    seq(|used|, j requires 0 <= j < |used| => if start <= j < start + n then v else used[j])
  }

  /** The first run of `n` clear bits starting at or after `from`; |used| when there is none. */
  function FirstRun(used: seq<bool>, n: nat, from: nat := 0): (k: nat)
    requires from <= |used|
    ensures from <= k <= |used|
    ensures k < |used| ==> FreeRun(used, k, n)
    ensures forall j :: from <= j < k ==> !FreeRun(used, j, n)
    decreases |used| - from
  {
    if from == |used| then from
    else if FreeRun(used, from, n) then from
    else FirstRun(used, n, from + 1)
  }

  ghost predicate NoRunBelow(used: seq<bool>, hi: nat, n: nat) {
    forall k: nat :: k < hi ==> !FreeRun(used, k, n)
  }

  /** A used bit rules out every run that would cover it. */
  lemma BlockedAt(used: seq<bool>, i: nat, run: nat, n: nat)
    requires i < |used| && used[i] && run <= i && run < n && NoRunBelow(used, i - run, n)
    ensures NoRunBelow(used, i + 1, n)
  {
    forall k: nat | k < i + 1 ensures !FreeRun(used, k, n) {
      assert i - run <= k ==> k <= i < k + n;
    }
  }

  lemma LowestRun(used: seq<bool>, start: nat, n: nat)
    requires n > 0 && FreeRun(used, start, n) && NoRunBelow(used, start, n)
    ensures FirstRun(used, n) == start
  {
    var k := FirstRun(used, n);
    assert start < |used| && !(start < k);
  }

  lemma TooShort(used: seq<bool>, run: nat, n: nat)
    requires run < n && run <= |used| && NoRunBelow(used, |used| - run, n)
    ensures FirstRun(used, n) == |used|
  {
    var k := FirstRun(used, n);
    assert k < |used| - run ==> !FreeRun(used, k, n);
  }

  /** The bitmap after allocating `n` frames, and the first frame; 0 stands for failure. */
  function Alloc(used: seq<bool>, n: nat): (r: (seq<bool>, nat)) {
    var k := FirstRun(used, n);
    if n == 0 || k == |used| then (used, 0) else (Mark(used, k, n, true), k)
  }

  /** The bitmap after freeing `n` frames from frame `f` on. */
  function Free(used: seq<bool>, f: nat, n: nat): (r: seq<bool>) {
    if f == 0 then used else Mark(used, f, n, false)
  }

  /** Setting one bit changes the count by that bit's own change. */
  lemma {:induction false} FreeBelowUpdate(used: seq<bool>, i: nat, v: bool, n: nat)
    requires i < |used| && n <= |used|
    ensures FreeBelow(used[i := v], n) ==
            FreeBelow(used, n) + (if i < n then (if v then 0 else 1) - (if used[i] then 0 else 1) else 0)
  {
    if n > 0 { FreeBelowUpdate(used, i, v, n - 1); }
  }

  /** The count after marking [start, start + n), up to position `m`. */
  lemma {:induction false} FreeBelowMarkRun(used: seq<bool>, start: nat, n: nat, m: nat)
    requires FreeRun(used, start, n) && m <= |used|
    ensures FreeBelow(Mark(used, start, n, true), m) ==
            FreeBelow(used, m) - (if m <= start then 0 else if m >= start + n then n else m - start)
  {
    if m > 0 { FreeBelowMarkRun(used, start, n, m - 1); }
  }

  lemma RunFitsCount(used: seq<bool>, start: nat, n: nat)
    requires FreeRun(used, start, n)
    ensures n <= CountFree(used)
    ensures CountFree(Mark(used, start, n, true)) == CountFree(used) - n
  {
    FreeBelowMarkRun(used, start, n, |used|);
  }

  /** Allocation is first fit. It fails, reporting 0, exactly when nothing was asked for, no
      run fits, or the lowest run that fits starts at frame 0 - whose address is the failure
      value. `pmm_init` reserves frame 0, so the last case never arises after boot. */
  lemma AllocFirstFit(used: seq<bool>, n: nat)
    ensures var (u, f) := Alloc(used, n);
            && |u| == |used|
            && (f != 0 ==> FreeRun(used, f, n) && u == Mark(used, f, n, true)
                           && forall j :: 0 <= j < f ==> !FreeRun(used, j, n))
            && (f == 0 <==> n == 0 || FreeRun(used, 0, n) || !exists j :: FreeRun(used, j, n))
            && (f == 0 && u != used ==> FreeRun(used, 0, n))
            && (|used| > 0 && used[0] && f == 0 ==> u == used)
  {
    var k := FirstRun(used, n);
    if n != 0 && k < |used| { assert FreeRun(used, k, n); }
    if n != 0 && k == |used| {
      forall j | 0 <= j ensures !FreeRun(used, j, n) {}
    }
  }

  lemma AllocThenFree(used: seq<bool>, n: nat)
    requires Alloc(used, n).1 != 0
    ensures Free(Alloc(used, n).0, Alloc(used, n).1, n) == used
    ensures CountFree(Alloc(used, n).0) == CountFree(used) - n
  {
    var k := FirstRun(used, n);
    RunFitsCount(used, k, n);
  }

  /** A single frame can be had exactly when the count is positive (frame 0 being reserved). */
  lemma {:induction false} FreeBelowPositive(used: seq<bool>, n: nat)
    requires n <= |used|
    ensures FreeBelow(used, n) > 0 <==> exists j :: 0 <= j < n && !used[j]
  {
    if n > 0 { FreeBelowPositive(used, n - 1); }
  }

  lemma AllocOneSucceeds(used: seq<bool>)
    requires |used| > 0 && used[0]
    ensures Alloc(used, 1).1 != 0 <==> CountFree(used) > 0
    ensures Alloc(used, 1).1 != 0 ==>
              && Alloc(used, 1).1 < |used| && !used[Alloc(used, 1).1]
              && Alloc(used, 1).0 == used[Alloc(used, 1).1 := true]
              && CountFree(Alloc(used, 1).0) == CountFree(used) - 1
    ensures Alloc(used, 1).1 == 0 ==> Alloc(used, 1).0 == used
  {
    FreeBelowPositive(used, |used|);
    if Alloc(used, 1).1 != 0 { AllocThenFree(used, 1); }
    if j :| 0 <= j < |used| && !used[j] { assert FreeRun(used, j, 1); }
  }

  // ---------------------------------------------------------------------------------------
  // Runs: callers free only what they allocated.
  // ---------------------------------------------------------------------------------------

  datatype Block = Block(start: nat, len: nat)

  datatype Op = AllocOp(n: nat) | FreeOp(b: Block)

  /** The bitmap and the allocations still live. */
  datatype Heap = Heap(used: seq<bool>, live: set<Block>)

  predicate Enabled(h: Heap, op: Op) {
    op.FreeOp? ==> op.b in h.live
  }

  function Step(h: Heap, op: Op): Heap
    requires Enabled(h, op)
  {
    match op
    case AllocOp(n) =>
      var (u, f) := Alloc(h.used, n);
      if f == 0 then Heap(u, h.live) else Heap(u, h.live + {Block(f, n)})
    case FreeOp(b) => Heap(Free(h.used, b.start, b.len), h.live - {b})
  }

  predicate Covers(b: Block, j: nat) {
    b.start <= j < b.start + b.len
  }

  /** `base` is the bitmap at boot: it never allows frame 0, live blocks are disjoint and lie on
      frames free at boot, and a bit is set exactly when it was at boot or a live block covers it. */
  ghost predicate HeapInv(base: seq<bool>, h: Heap) {
    && |base| > 0 && base[0]
    && |h.used| == |base|
    && (forall b :: b in h.live ==> 0 < b.start && 0 < b.len && b.start + b.len <= |base|)
    && (forall b, c, j: nat :: b in h.live && c in h.live && Covers(b, j) && Covers(c, j) ==> b == c)
    && (forall b, j: nat :: b in h.live && Covers(b, j) ==> !base[j])
    && (forall j :: 0 <= j < |base| ==> (h.used[j] <==> base[j] || exists b :: b in h.live && Covers(b, j)))
  }

  lemma StepKeepsHeapInv(base: seq<bool>, h: Heap, op: Op)
    requires HeapInv(base, h) && Enabled(h, op)
    ensures HeapInv(base, Step(h, op))
  {
    var h' := Step(h, op);
    match op
    case AllocOp(n) =>
      AllocFirstFit(h.used, n);
      var f := Alloc(h.used, n).1;
      if f != 0 {
        var nb := Block(f, n);
        forall b, j: nat | b in h.live && Covers(b, j) ensures h.used[j] {}
        forall j | 0 <= j < |base|
          ensures h'.used[j] <==> base[j] || exists b :: b in h'.live && Covers(b, j)
        {
          if Covers(nb, j) { assert nb in h'.live; }
          if b :| b in h.live && Covers(b, j) { assert b in h'.live; }
        }
      }
    case FreeOp(b) =>
      forall j | 0 <= j < |base|
        ensures h'.used[j] <==> base[j] || exists c :: c in h'.live && Covers(c, j)
      {
        if c :| c in h.live && Covers(c, j) && c != b { assert c in h'.live; }
      }
  }

  /** `hs` are the states passed through while performing `ops` from boot. */
  ghost predicate IsRun(base: seq<bool>, ops: seq<Op>, hs: seq<Heap>) {
    && |hs| == |ops| + 1
    && hs[0] == Heap(base, {})
    && forall i :: 0 <= i < |ops| ==> Enabled(hs[i], ops[i]) && hs[i + 1] == Step(hs[i], ops[i])
  }

  /** On every run from boot the live blocks stay disjoint and account for every bit that has
      changed since boot; once all of them are freed the bitmap is the one found at boot. */
  lemma {:induction false} RunAccounting(base: seq<bool>, ops: seq<Op>, hs: seq<Heap>, k: nat)
    requires |base| > 0 && base[0]
    requires IsRun(base, ops, hs) && k < |hs|
    ensures HeapInv(base, hs[k])
    ensures hs[k].live == {} ==> hs[k].used == base
  {
    if k > 0 {
      RunAccounting(base, ops, hs, k - 1);
      StepKeepsHeapInv(base, hs[k - 1], ops[k - 1]);
    }
  }

  // ---------------------------------------------------------------------------------------
  // The allocator itself.
  // ---------------------------------------------------------------------------------------

  predicate BitAt(b: bv8, k: nat)
    requires k < 8
  {
    (b >> k) & 1 == 1
  }

  lemma SetBitAt(b: bv8, k: nat, j: nat)
    requires k < 8 && j < 8
    ensures BitAt(b | (1 << k), j) == (j == k || BitAt(b, j))
  {
  }

  lemma ClearBitAt(b: bv8, k: nat, j: nat)
    requires k < 8 && j < 8
    ensures BitAt(b & !(1 << k), j) == (j != k && BitAt(b, j))
  {
  }

  /** The bits of a byte string, least significant first. */
  ghost function Unpack(bytes: seq<bv8>): (r: seq<bool>)
    ensures |r| == 8 * |bytes|
    ensures forall i :: 0 <= i < 8 * |bytes| ==> r[i] == BitAt(bytes[i / 8], i % 8)
  {
    seq(8 * |bytes|, i requires 0 <= i < 8 * |bytes| => BitAt(bytes[i / 8], i % 8))
  }

  lemma UnpackUpdate(bytes: seq<bv8>, i: nat, b: bv8, v: bool)
    requires i < 8 * |bytes|
    requires forall j: nat :: j < 8 ==> BitAt(b, j) == if j == i % 8 then v else BitAt(bytes[i / 8], j)
    ensures Unpack(bytes[i / 8 := b]) == Unpack(bytes)[i := v]
  {
  }

  function MarkedRange(used: seq<bool>, start: U64, end: U64, v: bool): (r: seq<bool>)
    ensures |r| == |used|
  {
    if end <= start then used else Mark(used, start / PAGE_SIZE, end / PAGE_SIZE - start / PAGE_SIZE, v)
  }

  /** `pmm_free_range`: clears the frames that lie wholly inside [addr, addr + size). */
  function FreedRange(used: seq<bool>, addr: U64, size: U64): (r: seq<bool>)
    ensures |r| == |used|
  {
    MarkedRange(used, AlignUp(addr), AlignDown(Add64(addr, size)), false)
  }

  /** `pmm_reserve_range`: sets the frames that overlap [addr, addr + size). */
  function ReservedRange(used: seq<bool>, addr: U64, size: U64): (r: seq<bool>)
    ensures |r| == |used|
  {
    MarkedRange(used, AlignDown(addr), AlignUp(Add64(addr, size)), true)
  }

  datatype Region = Region(addr: U64, len: U64, kind: nat)

  const AVAILABLE: nat := 1
  const LOW_MEMORY: U64 := 0x10_0000

  /** The bitmap once the available regions of the boot memory map have been freed. */
  function AvailableMap(regions: seq<Region>): (r: seq<bool>)
    ensures |r| == MAX_PAGES
  {
    if regions == [] then seq(MAX_PAGES, _ => true)
    else
      var prev := AvailableMap(regions[..|regions| - 1]);
      var e := regions[|regions| - 1];
      if e.kind == AVAILABLE then FreedRange(prev, e.addr, e.len) else prev
  }

  /** The bitmap `pmm_init` leaves, for a kernel image and boot information at given places. */
  function BootMap(regions: seq<Region>, kernel: Region, info: Region): (r: seq<bool>)
    ensures |r| == MAX_PAGES
  {
    var low := ReservedRange(AvailableMap(regions), 0, LOW_MEMORY);
    ReservedRange(ReservedRange(low, kernel.addr, kernel.len), info.addr, info.len)
  }

  predicate NoWrap(e: Region) {
    e.addr + e.len <= TWO64 - PAGE_SIZE
  }

  /** Frame `f` lies wholly inside the region. */
  predicate Inside(e: Region, f: nat) {
    e.addr <= f * PAGE_SIZE && (f + 1) * PAGE_SIZE <= e.addr + e.len
  }

  predicate Overlaps(e: Region, f: nat) {
    e.addr < (f + 1) * PAGE_SIZE && f * PAGE_SIZE < e.addr + e.len
  }

  /** Frame `f` is one that `pmm_free_range` clears for the region, wrapped sums included: a region that
      begins in the last page of the address space is taken to begin at 0. */
  predicate Freed(e: Region, f: nat) {
    (e.addr <= TWO64 - PAGE_SIZE ==> e.addr <= f * PAGE_SIZE) && (f + 1) * PAGE_SIZE <= Add64(e.addr, e.len)
  }

  /** Frame `f` is one that `pmm_reserve_range` sets for the region, wrapped sums included: nothing is
      set for a region that ends in the last page of the address space. */
  predicate Reserved(e: Region, f: nat) {
    var end := Add64(e.addr, e.len);
    end <= TWO64 - PAGE_SIZE && e.addr < (f + 1) * PAGE_SIZE && f * PAGE_SIZE < end
  }

  lemma FreedRangeExact(used: seq<bool>, e: Region, f: nat)
    requires f < |used|
    ensures FreedRange(used, e.addr, e.len)[f] == (used[f] && !Freed(e, f))
    ensures NoWrap(e) ==> (Freed(e, f) <==> Inside(e, f))
  {
    AlignUpIsLeast(e.addr);
    var end := Add64(e.addr, e.len);
    assert (f + 1) * PAGE_SIZE <= end <==> f + 1 <= end / PAGE_SIZE;
  }

  lemma ReservedRangeExact(used: seq<bool>, e: Region, f: nat)
    requires f < |used|
    ensures ReservedRange(used, e.addr, e.len)[f] == (used[f] || Reserved(e, f))
    ensures NoWrap(e) ==> (Reserved(e, f) <==> Overlaps(e, f))
  {
    AlignUpIsLeast(Add64(e.addr, e.len));
    assert e.addr < (f + 1) * PAGE_SIZE <==> e.addr / PAGE_SIZE <= f;
  }

  lemma {:induction false} AvailableMapExact(regions: seq<Region>, f: nat)
    requires f < MAX_PAGES
    ensures !AvailableMap(regions)[f] <==> exists e :: e in regions && e.kind == AVAILABLE && Freed(e, f)
  {
    if regions != [] {
      var prev, e := regions[..|regions| - 1], regions[|regions| - 1];
      assert regions == prev + [e];
      AvailableMapExact(prev, f);
      FreedRangeExact(AvailableMap(prev), e, f);
      assert forall x :: x in regions <==> x in prev || x == e;
    }
  }

  /** After boot a frame is free exactly when an available region frees it and it belongs neither to low
      memory nor to what is reserved for the kernel image and the boot information; frame 0 never is. */
  lemma BootMapExact(regions: seq<Region>, kernel: Region, info: Region, f: nat)
    requires f < MAX_PAGES
    ensures !BootMap(regions, kernel, info)[f] <==>
            && (exists e :: e in regions && e.kind == AVAILABLE && Freed(e, f))
            && LOW_MEMORY <= f * PAGE_SIZE && !Reserved(kernel, f) && !Reserved(info, f)
    ensures BootMap(regions, kernel, info)[0]
  {
    var avail := AvailableMap(regions);
    AvailableMapExact(regions, f);
    var low := Region(0, LOW_MEMORY, 0);
    ReservedRangeExact(avail, low, f);
    ReservedRangeExact(avail, low, 0);
    var l := ReservedRange(avail, 0, LOW_MEMORY);
    ReservedRangeExact(l, kernel, f);
    ReservedRangeExact(l, kernel, 0);
    var k := ReservedRange(l, kernel.addr, kernel.len);
    ReservedRangeExact(k, info, f);
    ReservedRangeExact(k, info, 0);
  }

  /** When no region's end wraps, those are the frames that lie wholly inside an available region and
      overlap neither low memory nor the kernel image nor the boot information. */
  lemma BootMapPlain(regions: seq<Region>, kernel: Region, info: Region, f: nat)
    requires f < MAX_PAGES && NoWrap(kernel) && NoWrap(info) && forall e :: e in regions ==> NoWrap(e)
    ensures !BootMap(regions, kernel, info)[f] <==>
            && (exists e :: e in regions && e.kind == AVAILABLE && Inside(e, f))
            && LOW_MEMORY <= f * PAGE_SIZE && !Overlaps(kernel, f) && !Overlaps(info, f)
  {
    BootMapExact(regions, kernel, info, f);
    var used := seq(MAX_PAGES, _ => true);
    forall e | e in regions ensures Freed(e, f) <==> Inside(e, f) { FreedRangeExact(used, e, f); }
    ReservedRangeExact(used, kernel, f);
    ReservedRangeExact(used, info, f);
  }

  class FrameAllocator {
    var bitmap: array<bv8>
    var total: nat
    var freeCount: nat
    var ready: bool

    predicate Shaped()
      reads this
    {
      bitmap.Length == BITMAP_BYTES && total == MAX_PAGES
    }

    ghost function Bits(): (r: seq<bool>)
      requires Shaped()
      reads this, bitmap
      ensures |r| == MAX_PAGES
    {
      Unpack(bitmap[..])
    }

    /** The invariant kept from the end of `Init` on: the counter is the number of clear bits. */
    ghost predicate Valid()
      reads this, bitmap
    {
      Shaped() && freeCount == CountFree(Bits())
    }

    constructor ()
      ensures Shaped() && fresh(bitmap) && !ready
    {
      bitmap := new bv8[BITMAP_BYTES](_ => 0xFF);
      total, freeCount, ready := MAX_PAGES, 0, false;
    }

    method BitTest(i: nat) returns (b: bool)
      requires Shaped() && i < total
      ensures b == Bits()[i]
    {
      b := (bitmap[i / 8] >> (i % 8)) & 1 == 1;
    }

    method BitSet(i: nat)
      requires Shaped() && i < total
      modifies bitmap
      ensures Bits() == old(Bits())[i := true]
    {
      var b := bitmap[i / 8];
      bitmap[i / 8] := b | (1 << (i % 8));
      forall j: nat | j < 8 ensures BitAt(bitmap[i / 8], j) == if j == i % 8 then true else BitAt(b, j) {
        SetBitAt(b, i % 8, j);
      }
      UnpackUpdate(old(bitmap[..]), i, bitmap[i / 8], true);
      assert bitmap[..] == old(bitmap[..])[i / 8 := bitmap[i / 8]];
    }

    method BitClear(i: nat)
      requires Shaped() && i < total
      modifies bitmap
      ensures Bits() == old(Bits())[i := false]
    {
      var b := bitmap[i / 8];
      bitmap[i / 8] := b & !(1 << (i % 8));
      forall j: nat | j < 8 ensures BitAt(bitmap[i / 8], j) == if j == i % 8 then false else BitAt(b, j) {
        ClearBitAt(b, i % 8, j);
      }
      UnpackUpdate(old(bitmap[..]), i, bitmap[i / 8], false);
      assert bitmap[..] == old(bitmap[..])[i / 8 := bitmap[i / 8]];
    }

    method RecountFree()
      requires Shaped()
      modifies this`freeCount
      ensures Valid() && Bits() == old(Bits())
    {
      var n := 0;
      for i := 0 to total
        invariant n == FreeBelow(Bits(), i)
      {
        var b := BitTest(i);
        if !b { n := n + 1; }
      }
      freeCount := n;
    }

    /** Gives one bit the value `v`, keeping the counter in step when `counting`. */
    method MarkFrame(page: nat, v: bool, counting: bool)
      requires Shaped() && page < total
      requires counting ==> Valid()
      modifies bitmap, this`freeCount
      ensures Bits() == old(Bits())[page := v]
      ensures counting ==> Valid()
      ensures !counting ==> freeCount == old(freeCount)
    {
      FreeBelowUpdate(Bits(), page, v, MAX_PAGES);
      FreeBelowPositive(Bits(), MAX_PAGES);
      var b := BitTest(page);
      if b && !v {
        BitClear(page);
        if counting { freeCount := freeCount + 1; }
      } else if !b && v {
        BitSet(page);
        if counting && freeCount != 0 { freeCount := freeCount - 1; }
      }
    }

    /** The loop of `pmm_free_range` and `pmm_reserve_range` over [first, last) in frames. */
    method MarkFrames(first: nat, last: nat, v: bool)
      requires Shaped() && first <= last
      requires ready ==> Valid()
      modifies bitmap, this`freeCount
      ensures Bits() == Mark(old(Bits()), first, last - first, v)
      ensures ready ==> Valid()
      ensures !ready ==> freeCount == old(freeCount)
    {
      for page := first to last
        invariant Bits() == Mark(old(Bits()), first, page - first, v)
        invariant ready ==> Valid()
        invariant !ready ==> freeCount == old(freeCount)
      {
        if page >= total { break; }
        MarkFrame(page, v, ready);
      }
    }

    /** The common part of `pmm_free_range` and `pmm_reserve_range`, the end capped at 4 GiB. */
    method MarkRange(start: U64, end: U64, v: bool)
      requires Shaped()
      requires ready ==> Valid()
      modifies bitmap, this`freeCount
      ensures Bits() == MarkedRange(old(Bits()), start, end, v)
      ensures ready ==> Valid()
      ensures !ready ==> freeCount == old(freeCount)
    {
      if end <= start { return; }
      if start >= MAX_PHYS_BYTES { return; }
      MarkFrames(start / PAGE_SIZE, (if end > MAX_PHYS_BYTES then MAX_PHYS_BYTES else end) / PAGE_SIZE, v);
    }

    method FreeRange(addr: U64, size: U64)
      requires Shaped()
      requires ready ==> Valid()
      modifies bitmap, this`freeCount
      ensures Bits() == FreedRange(old(Bits()), addr, size)
      ensures ready ==> Valid()
      ensures !ready ==> freeCount == old(freeCount)
    {
      MarkRange(AlignUp(addr), AlignDown(Add64(addr, size)), false);
    }

    method ReserveRange(addr: U64, size: U64)
      requires Shaped()
      requires ready ==> Valid()
      modifies bitmap, this`freeCount
      ensures Bits() == ReservedRange(old(Bits()), addr, size)
      ensures ready ==> Valid()
      ensures !ready ==> freeCount == old(freeCount)
    {
      MarkRange(AlignDown(addr), AlignUp(Add64(addr, size)), true);
    }

    /** `pmm_init`, given the boot memory map if there is one and the two occupied regions. */
    method Init(found: bool, regions: seq<Region>, kernel: Region, info: Region)
      requires Shaped() && !ready
      modifies this, bitmap
      ensures Valid() && bitmap == old(bitmap) && ready == found
      ensures Bits() == if found then BootMap(regions, kernel, info) else AvailableMap([])
    {
      for i := 0 to bitmap.Length
        invariant Shaped() && bitmap == old(bitmap) && !ready
        invariant forall j :: 0 <= j < i ==> bitmap[j] == 0xFF
      {
        bitmap[i] := 0xFF;
      }
      assert Bits() == AvailableMap([]) by {
        forall j | 0 <= j < MAX_PAGES ensures Bits()[j] { AllOnes(j % 8); }
      }
      if !found { RecountFree(); return; }
      for i := 0 to |regions|
        invariant Shaped() && bitmap == old(bitmap) && !ready
        invariant Bits() == AvailableMap(regions[..i])
      {
        assert regions[..i + 1][..i] == regions[..i];
        if regions[i].kind == AVAILABLE { FreeRange(regions[i].addr, regions[i].len); }
      }
      assert regions[..|regions|] == regions;
      ReserveRange(0, LOW_MEMORY);
      ReserveRange(kernel.addr, kernel.len);
      ReserveRange(info.addr, info.len);
      RecountFree();
      ready := true;
    }

    /** Marks a run that was found free. */
    method TakeRun(start: nat, pages: nat)
      requires Valid() && FreeRun(Bits(), start, pages)
      modifies bitmap, this`freeCount
      ensures Valid() && Bits() == Mark(old(Bits()), start, pages, true)
    {
      RunFitsCount(Bits(), start, pages);
      for j := 0 to pages
        invariant Bits() == Mark(old(Bits()), start, j, true)
        invariant freeCount == old(freeCount)
      {
        BitSet(start + j);
      }
      freeCount := freeCount - pages;
    }

    /** `pmm_alloc_pages`: one pass with a run counter finds the lowest run that fits. */
    method AllocPages(pages: nat) returns (addr: nat)
      requires Valid()
      modifies bitmap, this`freeCount
      ensures Valid()
      ensures Bits() == Alloc(old(Bits()), pages).0
      ensures addr == Alloc(old(Bits()), pages).1 * PAGE_SIZE
    {
      if pages == 0 { return 0; }
      ghost var used := Bits();
      if pages > freeCount {
        forall j: nat ensures !FreeRun(used, j, pages) {
          if FreeRun(used, j, pages) { RunFitsCount(used, j, pages); }
        }
        return 0;
      }
      var run, start := 0, 0;
      for i := 0 to total
        invariant run <= i && run < pages && (run > 0 ==> start == i - run)
        invariant FreeRun(used, i - run, run)
        invariant NoRunBelow(used, i - run, pages)
        invariant Bits() == used && Valid()
      {
        var b := BitTest(i);
        if !b {
          if run == 0 { start := i; }
          run := run + 1;
          if run == pages {
            LowestRun(used, start, pages);
            TakeRun(start, pages);
            return start * PAGE_SIZE;
          }
        } else {
          BlockedAt(used, i, run, pages);
          run := 0;
        }
      }
      TooShort(used, run, pages);
      return 0;
    }

    /** `pmm_free_pages`: frames already free, and frames beyond the bitmap, are left alone. */
    method FreePages(addr: nat, pages: nat)
      requires Valid()
      modifies bitmap, this`freeCount
      ensures Valid()
      ensures Bits() == if addr == 0 then old(Bits()) else Mark(old(Bits()), addr / PAGE_SIZE, pages, false)
    {
      if pages == 0 { return; }
      if addr == 0 { return; }
      var start := addr / PAGE_SIZE;
      for j := 0 to pages
        invariant Valid()
        invariant Bits() == Mark(old(Bits()), start, j, false)
      {
        if start + j >= total { break; }
        MarkFrame(start + j, false, true);
      }
    }
  }

  lemma AllOnes(k: nat)
    requires k < 8
    ensures BitAt(0xFF, k)
  {
  }
}

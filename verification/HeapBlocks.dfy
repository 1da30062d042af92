/** The user heap of user/malloc.c on values: the block list as a sequence, in address order. */
module HeapBlocks {
  import opened Align

  /** `sizeof(ublock_t)` */
  const HEADER: nat := 24

  datatype Block = Block(addr: nat, size: nat, free: bool)

  /** Behind the block: the end of its payload. */
  function End(b: Block): nat { b.addr + HEADER + b.size }

  /** The pointer handed out for the block. */
  function Payload(b: Block): nat { b.addr + HEADER }

  /** `(x + 15) & ~15` in 64 bits */
  function Round16(x: nat): nat { (x + 15) % TWO64 / 16 * 16 }

  /** Rounding covers the request exactly when the addition does not wrap. */
  lemma RoundCovers(x: U64)
    ensures Round16(x) >= x <==> x + 15 < TWO64
    ensures x + 15 < TWO64 ==> Round16(x) < x + 16
  {
  }

  /** The blocks cover [start, brk) without gap or overlap. */
  predicate Tiles(bs: seq<Block>, start: nat, brk: nat) {
    if bs == [] then start == brk else bs[0].addr == start && Tiles(bs[1..], End(bs[0]), brk)
  }

  predicate NoFreePair(bs: seq<Block>) {
    forall i :: 0 <= i < |bs| - 1 ==> !(bs[i].free && bs[i + 1].free)
  }

  /** `find_block` */
  function FindBlock(bs: seq<Block>, size: nat): (k: nat)
    ensures k <= |bs|
    ensures k < |bs| ==> bs[k].free && bs[k].size >= size
    ensures forall j :: 0 <= j < k ==> !(bs[j].free && bs[j].size >= size)
  {
    if bs == [] || (bs[0].free && bs[0].size >= size) then 0 else 1 + FindBlock(bs[1..], size)
  }

  /** The bytes `request_space` asks the kernel for. */
  function Total(size: nat): nat { Round16((HEADER + size) % TWO64) }

  /** `merge` */
  function Merge(bs: seq<Block>): (r: seq<Block>)
    ensures bs != [] ==> r != [] && r[0].addr == bs[0].addr && (r[0].free <==> bs[0].free)
    decreases |bs|
  {
    if |bs| < 2 then bs
    else if bs[0].free && bs[1].free then Merge([Joined(bs[0], bs[1])] + bs[2..])
    else [bs[0]] + Merge(bs[1..])
  }

  function Joined(a: Block, b: Block): Block { Block(a.addr, a.size + HEADER + b.size, true) }

  /** One round of `merge`, at block `i`. */
  lemma MergeRound(bs: seq<Block>, i: nat)
    requires i + 1 < |bs|
    ensures var a, b := bs[i], bs[i + 1];
            bs[..i] + Merge(bs[i..]) ==
            if a.free && b.free then bs[..i] + Merge([Joined(a, b)] + bs[i + 2..]) else bs[..i + 1] + Merge(bs[i + 1..])
  {
    var cs := bs[i..];
    assert cs[0] == bs[i] && cs[1] == bs[i + 1] && cs[2..] == bs[i + 2..] && cs[1..] == bs[i + 1..];
    MergeHead(cs, bs[i], bs[i + 1]);
    assert bs[..i + 1] == bs[..i] + [bs[i]];
  }

  lemma MergeHead(cs: seq<Block>, a: Block, b: Block)
    requires |cs| >= 2 && cs[0] == a && cs[1] == b
    ensures Merge(cs) == if a.free && b.free then Merge([Joined(a, b)] + cs[2..]) else [a] + Merge(cs[1..])
  {
  }

  lemma {:induction false} MergeTiles(bs: seq<Block>, start: nat, brk: nat)
    requires Tiles(bs, start, brk)
    ensures Tiles(Merge(bs), start, brk)
    decreases |bs|
  {
    if |bs| >= 2 {
      if bs[0].free && bs[1].free {
        var cs := [Joined(bs[0], bs[1])] + bs[2..];
        assert cs[1..] == bs[2..] == bs[1..][1..];
        MergeTiles(cs, start, brk);
      } else {
        MergeTiles(bs[1..], End(bs[0]), brk);
      }
    }
  }

  lemma {:induction false} MergeNoFreePair(bs: seq<Block>)
    ensures NoFreePair(Merge(bs))
    decreases |bs|
  {
    if |bs| >= 2 {
      if bs[0].free && bs[1].free {
        MergeNoFreePair([Joined(bs[0], bs[1])] + bs[2..]);
      } else {
        MergeNoFreePair(bs[1..]);
        var r, m := Merge(bs), Merge(bs[1..]);
        assert forall i :: 0 < i < |r| ==> r[i] == m[i - 1];
      }
    }
  }

  /** Merging neither moves nor resizes a block in use, and makes none. */
  lemma {:induction false} MergeKeepsUsed(bs: seq<Block>, b: Block)
    requires !b.free
    ensures b in Merge(bs) <==> b in bs
    decreases |bs|
  {
    if |bs| >= 2 {
      if bs[0].free && bs[1].free {
        var cs := [Joined(bs[0], bs[1])] + bs[2..];
        MergeKeepsUsed(cs, b);
        assert bs == [bs[0], bs[1]] + bs[2..];
      } else {
        MergeKeepsUsed(bs[1..], b);
        assert bs == [bs[0]] + bs[1..];
      }
    }
  }

  lemma {:induction false} TilesAppend(bs: seq<Block>, start: nat, brk: nat, b: Block)
    requires Tiles(bs, start, brk) && b.addr == brk
    ensures Tiles(bs + [b], start, End(b))
    decreases |bs|
  {
    if bs == [] {
      assert bs + [b] == [b];
    } else {
      assert (bs + [b])[1..] == bs[1..] + [b];
      TilesAppend(bs[1..], End(bs[0]), brk, b);
    }
  }

  lemma {:induction false} TilesFlip(bs: seq<Block>, start: nat, brk: nat, k: nat, free: bool)
    requires Tiles(bs, start, brk) && k < |bs|
    ensures Tiles(bs[k := bs[k].(free := free)], start, brk)
    decreases |bs|
  {
    var cs := bs[k := bs[k].(free := free)];
    if k > 0 {
      assert cs[1..] == bs[1..][k - 1 := bs[1..][k - 1].(free := free)];
      TilesFlip(bs[1..], End(bs[0]), brk, k - 1, free);
    } else {
      assert cs[1..] == bs[1..];
    }
  }

  /** Tiled blocks lie in the heap and one behind the other. */
  lemma {:induction false} TilesInside(bs: seq<Block>, start: nat, brk: nat, i: nat)
    requires Tiles(bs, start, brk) && i < |bs|
    ensures start <= bs[i].addr && End(bs[i]) <= brk
    ensures forall j :: i < j < |bs| ==> End(bs[i]) <= bs[j].addr
    decreases |bs|
  {
    TilesGrow(bs[1..], End(bs[0]), brk);
    if i > 0 {
      TilesInside(bs[1..], End(bs[0]), brk, i - 1);
      forall j | i < j < |bs| ensures End(bs[i]) <= bs[j].addr { assert bs[j] == bs[1..][j - 1]; }
    } else {
      forall j | 0 < j < |bs| ensures End(bs[0]) <= bs[j].addr {
        TilesInside(bs[1..], End(bs[0]), brk, j - 1);
        assert bs[j] == bs[1..][j - 1];
      }
    }
  }

  lemma {:induction false} TilesGrow(bs: seq<Block>, start: nat, brk: nat)
    requires Tiles(bs, start, brk)
    ensures start <= brk
    decreases |bs|
  {
    if bs != [] { TilesGrow(bs[1..], End(bs[0]), brk); }
  }

  // ---------------------------------------------------------------------------------------
  // Runs
  // ---------------------------------------------------------------------------------------

  /** The blocks, the break, and the live pointers with the sizes they were asked for. */
  datatype Heap = Heap(blocks: seq<Block>, brk: nat, live: map<nat, nat>)

  predicate InUse(bs: seq<Block>, p: nat, size: nat) {
    exists b :: b in bs && !b.free && Payload(b) == p && size <= b.size
  }

  /** The heap is in order; its break is not the address that stands for failure. */
  ghost predicate HeapOk(h: Heap, start: nat) {
    && h.brk < TWO64 - 1 && Tiles(h.blocks, start, h.brk) && NoFreePair(h.blocks)
    && (forall p :: p in h.live ==> InUse(h.blocks, p, h.live[p]))
    && (forall b :: b in h.blocks && !b.free ==> Payload(b) in h.live)
  }

  /** Rounding the request does not wrap, and neither does the break if it has to move. */
  predicate Fits(h: Heap, size: nat) {
    size + 15 < TWO64 && (FindBlock(h.blocks, Round16(size)) < |h.blocks| || h.brk + Round16(size) + 32 < TWO64 - 1)
  }

  /** `malloc`; whether the kernel moves the break is an input. 0 stands for failure. */
  function Malloc(h: Heap, size: nat, brkOk: bool): (Heap, nat) {
    if size == 0 then (h, 0) else
    var s := Round16(size);
    var k := FindBlock(h.blocks, s);
    if k < |h.blocks| then
      var b := h.blocks[k].(free := false);
      (Heap(h.blocks[k := b], h.brk, h.live[Payload(b) := size]), Payload(b))
    else if !brkOk then (h, 0)
    else
      var b := Block(h.brk, (Total(s) - HEADER) % TWO64, false);
      (Heap(h.blocks + [b], (h.brk + Total(s)) % TWO64, h.live[Payload(b) := size]), Payload(b))
  }

  /** The slot of the block behind a pointer. */
  function SlotOf(bs: seq<Block>, p: nat): (k: nat)
    ensures k <= |bs| && (k < |bs| ==> Payload(bs[k]) == p)
    ensures k == |bs| ==> forall b :: b in bs ==> Payload(b) != p
  {
    if bs == [] || Payload(bs[0]) == p then 0 else 1 + SlotOf(bs[1..], p)
  }

  /** `free` */
  function Free(h: Heap, p: nat): Heap {
    if p == 0 then h else
    var k := SlotOf(h.blocks, p);
    if k == |h.blocks| then h
    else Heap(Merge(h.blocks[k := h.blocks[k].(free := true)]), h.brk, h.live - {p})
  }

  /** What is asked of the kernel for a rounded request: header and padding on top, unless that wraps. */
  lemma TotalIs(s: nat)
    requires s % 16 == 0 && s < TWO64
    ensures s + 39 < TWO64 ==> Total(s) == s + 32
    ensures s + 39 >= TWO64 ==> Total(s) < HEADER
  {
    if s + 39 >= TWO64 { assert s == TWO64 - 32 || s == TWO64 - 16; }
  }

  /** The block a request gets when the break moves, and where the break comes to. */
  function NewBlock(h: Heap, s: nat): Block { Block(h.brk, (Total(s) - HEADER) % TWO64, false) }

  function NewBreak(h: Heap, s: nat): nat { (h.brk + Total(s)) % TWO64 }

  /** The new block ends at the new break exactly when the sum does not wrap. */
  lemma NewBlockEnds(h: Heap, s: nat)
    requires s % 16 == 0 && s < TWO64 && h.brk < TWO64
    ensures End(NewBlock(h, s)) == NewBreak(h, s) <==> h.brk + s + 32 < TWO64
    ensures h.brk + s + 32 < TWO64 ==> NewBlock(h, s) == Block(h.brk, s + 8, false) && NewBreak(h, s) == h.brk + s + 32
  {
    TotalIs(s);
  }

  /** `malloc` without the arithmetic. */
  lemma MallocIs(h: Heap, size: nat, brkOk: bool, s: nat, k: nat)
    requires size != 0 && s == Round16(size) && k == FindBlock(h.blocks, s)
    ensures s % 16 == 0 && s < TWO64 && (size + 15 < TWO64 ==> size <= s)
    ensures Malloc(h, size, brkOk) ==
            if k < |h.blocks| then
              var b := h.blocks[k].(free := false); (Heap(h.blocks[k := b], h.brk, h.live[Payload(b) := size]), Payload(b))
            else if !brkOk then (h, 0)
            else
              var b := NewBlock(h, s); (Heap(h.blocks + [b], NewBreak(h, s), h.live[Payload(b) := size]), Payload(b))
  {
  }

  lemma MallocOk(h: Heap, start: nat, size: nat, brkOk: bool)
    requires HeapOk(h, start) && (Fits(h, size) || Malloc(h, size, brkOk).1 == 0)
    ensures var (g, p) := Malloc(h, size, brkOk);
            && HeapOk(g, start)
            && (p == 0 ==> g == h)
            && (p != 0 ==> p !in h.live && g.live == h.live[p := size])
            && (forall b :: b in h.blocks && !b.free ==> b in g.blocks)
  {
    if size != 0 {
      var s := Round16(size);
      var k := FindBlock(h.blocks, s);
      MallocIs(h, size, brkOk, s, k);
      if k < |h.blocks| {
        ReuseOk(h, start, size, k);
      } else if brkOk {
        NewBlockEnds(h, s);
        ExtendOk(h, start, size, s);
      }
    }
  }

  lemma {:induction false} TilesLast(bs: seq<Block>, start: nat, brk: nat, b: Block)
    requires Tiles(bs + [b], start, brk)
    ensures End(b) == brk
    decreases |bs|
  {
    if bs == [] {
      assert bs + [b] == [b];
    } else {
      assert (bs + [b])[1..] == bs[1..] + [b];
      TilesLast(bs[1..], End(bs[0]), brk, b);
    }
  }

  /** A live pointer with a request larger than the heap is never in order. */
  lemma TooLarge(h: Heap, start: nat, p: nat)
    requires p in h.live && h.live[p] + 15 >= TWO64
    ensures !HeapOk(h, start)
  {
    if HeapOk(h, start) {
      assert InUse(h.blocks, p, h.live[p]);
      var b :| b in h.blocks && !b.free && Payload(b) == p && h.live[p] <= b.size;
      var i :| 0 <= i < |h.blocks| && h.blocks[i] == b;
      TilesInside(h.blocks, start, h.brk, i);
      assert false;
    }
  }

  /** A successful malloc keeps the heap in order exactly when the request fits. */
  lemma MallocExact(h: Heap, start: nat, size: U64, brkOk: bool)
    requires HeapOk(h, start) && Malloc(h, size, brkOk).1 != 0
    ensures HeapOk(Malloc(h, size, brkOk).0, start) <==> Fits(h, size)
  {
    if Fits(h, size) {
      MallocOk(h, start, size, brkOk);
    } else {
      var s := Round16(size);
      var k := FindBlock(h.blocks, s);
      MallocIs(h, size, brkOk, s, k);
      var (g, p) := Malloc(h, size, brkOk);
      if size + 15 >= TWO64 {
        TooLarge(g, start, p);
      } else {
        NewBlockEnds(h, s);
        if HeapOk(g, start) { TilesLast(h.blocks, start, g.brk, NewBlock(h, s)); }
      }
    }
  }

  /** An empty heap at 4096 and a request of 2^64 - 40: rounding does not wrap, but the total comes to
      nothing, the break stays, and a block of 2^64 - 24 bytes is handed out. */
  lemma WrappedTotal()
    ensures var h, size := Heap([], 4096, map[]), TWO64 - 40;
            && HeapOk(h, 4096) && size + 15 < TWO64
            && Malloc(h, size, true) == (Heap([Block(4096, TWO64 - 24, false)], 4096, map[4120 := size]), 4120)
            && !HeapOk(Malloc(h, size, true).0, 4096)
  {
    var h, size := Heap([], 4096, map[]), TWO64 - 40;
    var s := TWO64 - 32;
    assert Round16(size) == s && Total(s) == 0;
    MallocIs(h, size, true, s, 0);
    assert h.blocks + [NewBlock(h, s)] == [Block(4096, TWO64 - 24, false)];
    MallocExact(h, 4096, size, true);
  }

  /** A free block's payload is nobody's. */
  lemma FreeNotLive(h: Heap, start: nat, k: nat)
    requires HeapOk(h, start) && k < |h.blocks| && h.blocks[k].free
    ensures Payload(h.blocks[k]) !in h.live
  {
    var p := Payload(h.blocks[k]);
    if p in h.live {
      var b :| b in h.blocks && !b.free && Payload(b) == p && h.live[p] <= b.size;
      var i :| 0 <= i < |h.blocks| && h.blocks[i] == b;
      if i < k { TilesInside(h.blocks, start, h.brk, i); } else { TilesInside(h.blocks, start, h.brk, k); }
      assert false;
    }
  }

  lemma ReuseOk(h: Heap, start: nat, size: nat, k: nat)
    requires HeapOk(h, start) && k < |h.blocks| && h.blocks[k].free && h.blocks[k].size >= size
    ensures var b := h.blocks[k].(free := false);
            && HeapOk(Heap(h.blocks[k := b], h.brk, h.live[Payload(b) := size]), start)
            && Payload(b) !in h.live
            && (forall c :: c in h.blocks && !c.free ==> c in h.blocks[k := b])
  {
    var b := h.blocks[k].(free := false);
    FreeNotLive(h, start, k);
    TilesFlip(h.blocks, start, h.brk, k, false);
    UsedStay(h.blocks, k, b);
    ReuseLive(h, h.blocks[k := b], b, k, size);
  }

  lemma ReuseLive(h: Heap, bs: seq<Block>, b: Block, k: nat, size: nat)
    requires forall p :: p in h.live ==> InUse(h.blocks, p, h.live[p])
    requires forall c :: c in h.blocks && !c.free ==> Payload(c) in h.live && c in bs
    requires k < |h.blocks| && bs == h.blocks[k := b] && !b.free && size <= b.size && Payload(b) !in h.live
    ensures var live := h.live[Payload(b) := size];
            && (forall p :: p in live ==> InUse(bs, p, live[p]))
            && (forall c :: c in bs && !c.free ==> Payload(c) in live)
  {
    assert bs[k] == b && b in bs;
    forall p | p in h.live ensures InUse(bs, p, h.live[p]) {
      var c :| c in h.blocks && !c.free && Payload(c) == p && h.live[p] <= c.size;
      assert c in bs;
    }
    forall c | c in bs && !c.free && c != b ensures c in h.blocks {
      var i :| 0 <= i < |bs| && bs[i] == c;
    }
  }

  lemma UsedStay(bs: seq<Block>, k: nat, b: Block)
    requires k < |bs| && bs[k].free
    ensures forall c :: c in bs && !c.free ==> c in bs[k := b]
  {
    forall c | c in bs && !c.free ensures c in bs[k := b] {
      var i :| 0 <= i < |bs| && bs[i] == c;
      assert bs[k := b][i] == c;
    }
  }

  lemma ExtendOk(h: Heap, start: nat, size: nat, s: nat)
    requires HeapOk(h, start) && size <= s && h.brk + s + 32 < TWO64 - 1
    ensures var b := Block(h.brk, s + 8, false);
            && HeapOk(Heap(h.blocks + [b], h.brk + s + 32, h.live[Payload(b) := size]), start)
            && Payload(b) !in h.live
  {
    var b := Block(h.brk, s + 8, false);
    var bs := h.blocks + [b];
    TilesAppend(h.blocks, start, h.brk, b);
    forall p | p in h.live ensures InUse(bs, p, h.live[p]) && p != Payload(b) {
      var c :| c in h.blocks && !c.free && Payload(c) == p && h.live[p] <= c.size;
      assert c in bs;
      var i :| 0 <= i < |h.blocks| && h.blocks[i] == c;
      TilesInside(h.blocks, start, h.brk, i);
    }
    assert b in bs;
  }

  /** No two blocks of the heap have the same payload. */
  lemma SamePayload(bs: seq<Block>, start: nat, brk: nat, i: nat, j: nat)
    requires Tiles(bs, start, brk) && i < |bs| && j < |bs| && Payload(bs[i]) == Payload(bs[j])
    ensures i == j
  {
    TilesInside(bs, start, brk, i);
    TilesInside(bs, start, brk, j);
  }

  lemma FreeOk(h: Heap, start: nat, p: nat)
    requires HeapOk(h, start) && (p == 0 || p in h.live)
    ensures var g := Free(h, p);
            && HeapOk(g, start) && g.brk == h.brk && (p != 0 ==> g.live == h.live - {p})
            && (forall b :: b in h.blocks && !b.free && Payload(b) != p ==> b in g.blocks)
  {
    if p != 0 {
      var k := SlotOf(h.blocks, p);
      assert InUse(h.blocks, p, h.live[p]);
      var cs := h.blocks[k := h.blocks[k].(free := true)];
      TilesFlip(h.blocks, start, h.brk, k, true);
      MergeTiles(cs, start, h.brk);
      MergeNoFreePair(cs);
      forall b: Block | !b.free ensures b in Merge(cs) <==> b in h.blocks && Payload(b) != p {
        MergeKeepsUsed(cs, b);
        FlippedUsed(h.blocks, start, h.brk, k, b);
      }
      FreeLive(h, Merge(cs), p);
    }
  }

  lemma FlippedUsed(bs: seq<Block>, start: nat, brk: nat, k: nat, b: Block)
    requires Tiles(bs, start, brk) && k < |bs| && !b.free
    ensures b in bs[k := bs[k].(free := true)] <==> b in bs && Payload(b) != Payload(bs[k])
  {
    var cs := bs[k := bs[k].(free := true)];
    if b in cs {
      var i :| 0 <= i < |cs| && cs[i] == b;
      assert bs[i] == b;
      if Payload(b) == Payload(bs[k]) { SamePayload(bs, start, brk, i, k); }
    }
    if b in bs && Payload(b) != Payload(bs[k]) {
      var i :| 0 <= i < |bs| && bs[i] == b;
      assert cs[i] == b;
    }
  }

  lemma FreeLive(h: Heap, bs: seq<Block>, p: nat)
    requires forall q :: q in h.live ==> InUse(h.blocks, q, h.live[q])
    requires forall b :: b in h.blocks && !b.free ==> Payload(b) in h.live
    requires forall b: Block :: !b.free ==> (b in bs <==> b in h.blocks && Payload(b) != p)
    ensures forall q :: q in h.live - {p} ==> InUse(bs, q, h.live[q])
    ensures forall b :: b in bs && !b.free ==> Payload(b) in h.live - {p}
  {
    forall q | q in h.live - {p} ensures InUse(bs, q, h.live[q]) {
      var b :| b in h.blocks && !b.free && Payload(b) == q && h.live[q] <= b.size;
      assert b in bs;
    }
  }

  datatype Op = MallocOp(size: nat, brkOk: bool) | FreeOp(p: nat)

  function Step(h: Heap, op: Op): Heap {
    match op
    case MallocOp(size, brkOk) => Malloc(h, size, brkOk).0
    case FreeOp(p) => Free(h, p)
  }

  /** Requests that fit or are refused, and live pointers freed. */
  predicate Allowed(h: Heap, ops: seq<Op>)
    decreases |ops|
  {
    ops != [] ==>
      && (match ops[0]
          case MallocOp(size, brkOk) => Fits(h, size) || Malloc(h, size, brkOk).1 == 0
          case FreeOp(p) => p == 0 || p in h.live)
      && Allowed(Step(h, ops[0]), ops[1..])
  }

  function Run(h: Heap, ops: seq<Op>): Heap
    decreases |ops|
  {
    if ops == [] then h else Run(Step(h, ops[0]), ops[1..])
  }

  /** After every sequence of malloc and free the blocks tile the heap, no two neighbours are free,
      and every live pointer has a block of its own with room for what was asked. */
  lemma {:induction false} EveryRun(h: Heap, start: nat, ops: seq<Op>)
    requires HeapOk(h, start) && Allowed(h, ops)
    ensures HeapOk(Run(h, ops), start)
    decreases |ops|
  {
    if ops != [] {
      match ops[0] {
        case MallocOp(size, brkOk) => MallocOk(h, start, size, brkOk);
        case FreeOp(p) => FreeOk(h, start, p);
      }
      EveryRun(Step(h, ops[0]), start, ops[1..]);
    }
  }

  /** What live pointers may be used for does not overlap, and lies in the heap. */
  lemma PayloadsDisjoint(h: Heap, start: nat, p: nat, q: nat)
    requires HeapOk(h, start) && p in h.live && q in h.live && p != q
    ensures start < p && p + h.live[p] <= h.brk && (p + h.live[p] <= q || q + h.live[q] <= p)
  {
    assert InUse(h.blocks, p, h.live[p]) && InUse(h.blocks, q, h.live[q]);
    var b :| b in h.blocks && !b.free && Payload(b) == p && h.live[p] <= b.size;
    var c :| c in h.blocks && !c.free && Payload(c) == q && h.live[q] <= c.size;
    var i :| 0 <= i < |h.blocks| && h.blocks[i] == b;
    var j :| 0 <= j < |h.blocks| && h.blocks[j] == c;
    TilesInside(h.blocks, start, h.brk, i);
    TilesInside(h.blocks, start, h.brk, j);
  }
}

/** user/malloc.c as it runs. The list of blocks is walked from its head; its links are the order of
    the sequence. */
module UserHeap {
  import opened Align
  import opened HeapBlocks

  class Heap {
    var blocks: seq<Block>
    var brk: nat
    const end: nat
    ghost var live: map<nat, nat>

    ghost function State(): HeapBlocks.Heap
      reads this
    {
      HeapBlocks.Heap(blocks, brk, live)
    }

    ghost predicate Valid()
      reads this
    {
      HeapOk(State(), end)
    }

    constructor (end: nat)
      requires end < TWO64 - 1
      ensures Valid() && blocks == [] && brk == this.end == end && live == map[]
    {
      blocks, brk, this.end := [], end, end;
      live := map[];
    }

    method Find(size: nat) returns (k: nat)
      ensures k == FindBlock(blocks, size)
    {
      for i := 0 to |blocks|
        invariant FindBlock(blocks, size) == i + FindBlock(blocks[i..], size)
      {
        if blocks[i].free && blocks[i].size >= size { return i; }
        assert blocks[i..][1..] == blocks[i + 1..];
      }
      return |blocks|;
    }

    /** `sys_brk`, as far as it is seen here, and `sbrk` */
    method Sbrk(inc: nat, brkOk: bool) returns (addr: nat)
      modifies `brk
      ensures addr == if brkOk then old(brk) else TWO64 - 1
      ensures brk == if brkOk then (old(brk) + inc) % TWO64 else old(brk)
    {
      if !brkOk { return TWO64 - 1; }
      addr := brk;
      brk := (brk + inc) % TWO64;
    }

    /** `request_space`: the new block is the last one. */
    method RequestSpace(size: nat, brkOk: bool) returns (k: nat)
      requires brk < TWO64 - 1
      modifies `blocks, `brk
      ensures k == |old(blocks)|
      ensures brkOk ==> blocks == old(blocks) + [NewBlock(old(State()), size)] && brk == NewBreak(old(State()), size)
      ensures !brkOk ==> blocks == old(blocks) && brk == old(brk)
    {
      var total := Total(size);
      var addr := Sbrk(total, brkOk);
      k := |blocks|;
      if addr == TWO64 - 1 { return; }
      blocks := blocks + [Block(addr, (total - HEADER) % TWO64, false)];
    }

    /** `find_block`, or `request_space` when there is none. */
    method Obtain(s: nat, brkOk: bool) returns (k: nat)
      requires brk < TWO64 - 1
      modifies `blocks, `brk
      ensures k == FindBlock(old(blocks), s)
      ensures k < |old(blocks)| ==> brk == old(brk) && blocks == old(blocks)[k := old(blocks)[k].(free := false)]
      ensures k == |old(blocks)| && brkOk ==> blocks == old(blocks) + [NewBlock(old(State()), s)] && brk == NewBreak(old(State()), s)
      ensures k == |old(blocks)| && !brkOk ==> blocks == old(blocks) && brk == old(brk)
    {
      k := Find(s);
      if k == |blocks| {
        k := RequestSpace(s, brkOk);
      } else {
        blocks := blocks[k := blocks[k].(free := false)];
      }
    }

    /** `malloc`: the heap stays in order exactly when the request fits or is refused. */
    method Malloc(size: U64, brkOk: bool) returns (p: nat)
      requires Valid()
      modifies `blocks, `brk, `live
      ensures (State(), p) == HeapBlocks.Malloc(old(State()), size, brkOk)
      ensures Valid() <==> p == 0 || Fits(old(State()), size)
    {
      ghost var h := State();
      if HeapBlocks.Malloc(h, size, brkOk).1 != 0 { MallocExact(h, end, size, brkOk); } else { MallocOk(h, end, size, brkOk); }
      if size == 0 { return 0; }
      var s := Round16(size);
      MallocIs(h, size, brkOk, s, FindBlock(blocks, s));
      var k := Obtain(s, brkOk);
      if k == |blocks| { return 0; }
      p := Payload(blocks[k]);
      live := live[p := size];
    }

    /** The loop of `merge`, in place: `i` is the block it stands at. */
    method MergeAll()
      modifies `blocks
      ensures blocks == Merge(old(blocks))
    {
      var i := 0;
      while i + 1 < |blocks|
        invariant i <= |blocks| && blocks[..i] + Merge(blocks[i..]) == Merge(old(blocks))
        decreases |blocks| - i
      {
        var a, b := blocks[i], blocks[i + 1];
        MergeRound(blocks, i);
        if a.free && b.free {
          var front, rest := blocks[..i], [Joined(a, b)] + blocks[i + 2..];
          blocks := front + rest;
          assert blocks[..i] == front && blocks[i..] == rest;
        } else {
          i := i + 1;
        }
      }
      assert |blocks[i..]| < 2 && blocks[..i] + blocks[i..] == blocks;
    }

    method Free(p: nat)
      requires Valid() && (p == 0 || p in live)
      modifies `blocks, `live
      ensures Valid() && State() == HeapBlocks.Free(old(State()), p)
    {
      FreeOk(State(), end, p);
      if p == 0 { return; }
      assert InUse(blocks, p, live[p]);
      var k := SlotOf(blocks, p);
      blocks := blocks[k := blocks[k].(free := true)];
      MergeAll();
      live := live - {p};
    }
  }
}

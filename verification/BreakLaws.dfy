/** The heap and the mapping area of a process over runs of `brk` and `mmap` calls, in terms of the
    plain map of its pages. */
module BreakLaws {
  import opened Align
  import opened Paging
  import opened PageTree
  import opened PageRuns
  import opened Spaces

  /** Within the heap area [lo, limit) exactly the pages below `hi` are mapped. */
  ghost predicate HeapIs(m: map<nat, Entry>, lo: nat, hi: nat, limit: nat) {
    forall v: nat :: lo <= v < limit ==> (v in m <==> v < hi)
  }

  /** The maps agree outside [lo, limit). */
  ghost predicate SameOutside(m: map<nat, Entry>, m': map<nat, Entry>, lo: nat, limit: nat) {
    forall v: nat :: v < lo || limit <= v ==> (v in m <==> v in m') && (v in m ==> m'[v] == m[v])
  }

  const HEAP_FLAGS := NO_FLAGS.(present := true, writable := true, user := true)

  /** Where the mapped part of the heap is to end: never below the rounded start. */
  function BreakTarget(brkStart: U64, newEnd: U64): U64 {
    if AlignUp(newEnd) < AlignUp(brkStart) then AlignUp(brkStart) else AlignUp(newEnd)
  }

  function PageUp(a: U64): nat {
    AlignUp(a) / PAGE_SIZE
  }

  /** What `vmm_user_set_brk` does to the plain map, given the break before and the one asked for. */
  ghost predicate BrkEffect(brkStart: U64, brk: U64, newEnd: U64, m: map<nat, Entry>, m': map<nat, Entry>, ds: seq<nat>) {
    var cur, end := PageUp(brk), BreakTarget(brkStart, newEnd) / PAGE_SIZE;
    if end > cur then Vacant(m, cur, |ds|) && m' == Extend(m, cur, ds, HEAP_FLAGS)
    else m' == Drop(m, end, cur - end)
  }

  /** The address lies in the user region: outside the root's slot 0 and below 2^48. */
  predicate UserBound(a: U64) {
    0x800_0000 <= a / PAGE_SIZE < 0x10_0000_0000
  }

  /** What moving the mapped end of the heap from page `cur` to page `end`, `n` pages on, does to memory: a run of
      fresh pages is mapped, or a run is unmapped. */
  ghost predicate Moved(cur: nat, end: nat, n: nat, s: Phys, roles: Roles, t: Phys, after: Roles, root: nat, ds: seq<nat>) {
    if end > cur then Mapped(s, roles, t, after, root, cur, ds, HEAP_FLAGS)
    else Unmapped(s, roles, t, after, root, end, n)
  }

  lemma MovedEffect(brkStart: U64, brk: U64, newEnd: U64, cur: nat, end: nat, n: nat,
                    s: Phys, roles: Roles, t: Phys, after: Roles, root: nat, ds: seq<nat>)
    requires cur == PageUp(brk) && end == BreakTarget(brkStart, newEnd) / PAGE_SIZE && (end <= cur ==> n == cur - end)
    requires Moved(cur, end, n, s, roles, t, after, root, ds)
    ensures Inv(t, after) && OnlySpace(s, roles, t, after, root)
    ensures BrkEffect(brkStart, brk, newEnd, PageMap(s.mem, root), PageMap(t.mem, root), ds)
  {
    EffectIs(brkStart, brk, newEnd, cur, end, n, PageMap(s.mem, root), PageMap(t.mem, root), ds);
  }

  lemma EffectIs(brkStart: U64, brk: U64, newEnd: U64, cur: nat, end: nat, n: nat, m: map<nat, Entry>,
                 m': map<nat, Entry>, ds: seq<nat>)
    requires cur == PageUp(brk) && end == BreakTarget(brkStart, newEnd) / PAGE_SIZE && (end <= cur ==> n == cur - end)
    requires if end > cur then Vacant(m, cur, |ds|) && m' == Extend(m, cur, ds, HEAP_FLAGS) else m' == Drop(m, end, n)
    ensures BrkEffect(brkStart, brk, newEnd, m, m', ds)
  {
  }

  predicate Complete(brkStart: U64, brk: U64, newEnd: U64, ds: seq<nat>) {
    var cur, end := PageUp(brk), BreakTarget(brkStart, newEnd) / PAGE_SIZE;
    end > cur ==> |ds| == end - cur
  }

  /** One successful call moves the end of the heap to the new break and touches nothing else. */
  lemma BrkTracks(brkStart: U64, brk: U64, newEnd: U64, m: map<nat, Entry>, m': map<nat, Entry>, ds: seq<nat>, limit: nat)
    requires BrkEffect(brkStart, brk, newEnd, m, m', ds) && Complete(brkStart, brk, newEnd, ds)
    requires PageUp(brkStart) <= PageUp(brk) <= limit && PageUp(brkStart) <= PageUp(newEnd) <= limit
    requires HeapIs(m, PageUp(brkStart), PageUp(brk), limit)
    ensures HeapIs(m', PageUp(brkStart), PageUp(newEnd), limit)
    ensures SameOutside(m, m', PageUp(brkStart), limit)
  {
    var cur, end := PageUp(brk), PageUp(newEnd);
    assert end == BreakTarget(brkStart, newEnd) / PAGE_SIZE;
    forall v: nat
      ensures (v in m' <==> if end > cur then v in m || cur <= v < end else v in m && !(end <= v < cur))
              && (v in m && v in m' ==> m'[v] == m[v])
    {
      if end > cur { ExtendAt(m, cur, ds, HEAP_FLAGS, v); } else { DropAt(m, end, cur - end, v); }
    }
  }

  /** After any call the heap is what the break says, exactly if no growth stopped half-way. */
  lemma HeapAfter(brkStart: U64, brk: U64, newEnd: U64, m: map<nat, Entry>, m': map<nat, Entry>, ds: seq<nat>,
                  limit: nat, ok: bool)
    requires BrkEffect(brkStart, brk, newEnd, m, m', ds) && (ok <==> Complete(brkStart, brk, newEnd, ds))
    requires PageUp(newEnd) > PageUp(brk) ==> |ds| <= PageUp(newEnd) - PageUp(brk)
    requires PageUp(brkStart) <= PageUp(brk) <= limit && PageUp(brkStart) <= PageUp(newEnd) <= limit
    requires HeapIs(m, PageUp(brkStart), PageUp(brk), limit)
    ensures HeapIs(m', PageUp(brkStart), PageUp(if ok then newEnd else brk), limit) <==> ok || ds == []
    ensures SameOutside(m, m', PageUp(brkStart), limit)
  {
    var cur := PageUp(brk);
    assert PageUp(newEnd) == BreakTarget(brkStart, newEnd) / PAGE_SIZE;
    if ok {
      BrkTracks(brkStart, brk, newEnd, m, m', ds, limit);
    } else {
      forall v: nat ensures (v in m' <==> v in m || InRun(v, cur, |ds|)) && (v in m && v in m' ==> m'[v] == m[v]) {
        ExtendAt(m, cur, ds, HEAP_FLAGS, v);
      }
      if ds != [] { assert InRun(cur, cur, |ds|) && cur in m'; }
    }
  }

  /** A growth stays inside the heap area exactly when the rounded break it starts from is not
      below the rounded start of the heap: a break once moved below the start, which the call
      accepts, makes the next growth map pages that never belonged to the heap. */
  lemma GrowthStaysInHeap(brkStart: U64, brk: U64, newEnd: U64, m: map<nat, Entry>, m': map<nat, Entry>, ds: seq<nat>)
    requires BrkEffect(brkStart, brk, newEnd, m, m', ds) && PageUp(newEnd) > PageUp(brk) && ds != []
    ensures (forall v: nat :: v < PageUp(brkStart) ==> (v in m' <==> v in m)) <==> PageUp(brkStart) <= PageUp(brk)
  {
    var cur, lo := PageUp(brk), PageUp(brkStart);
    assert InRun(cur, cur, |ds|);
    ExtendAt(m, cur, ds, HEAP_FLAGS, cur);
    if lo <= cur {
      forall v: nat | v < lo ensures v in m' <==> v in m { ExtendAt(m, cur, ds, HEAP_FLAGS, v); }
    }
  }

  /** A growth that fails half-way leaves the mapped heap beyond the break, and from then on every
      growth from that break fails at once: the page it starts with is mapped already. */
  lemma PartialGrowthSticks(brkStart: U64, brk: U64, newEnd: U64, m: map<nat, Entry>, m': map<nat, Entry>,
                            ds: seq<nat>, limit: nat,
                            later: U64, m'': map<nat, Entry>, es: seq<nat>)
    requires BrkEffect(brkStart, brk, newEnd, m, m', ds) && ds != [] && PageUp(brk) + |ds| <= limit
    requires PageUp(brkStart) <= PageUp(brk) && HeapIs(m, PageUp(brkStart), PageUp(brk), limit)
    requires BreakTarget(brkStart, newEnd) / PAGE_SIZE > PageUp(brk)
    requires BrkEffect(brkStart, brk, later, m', m'', es) && BreakTarget(brkStart, later) / PAGE_SIZE > PageUp(brk)
    ensures HeapIs(m', PageUp(brkStart), PageUp(brk) + |ds|, limit)
    ensures es == [] && !Complete(brkStart, brk, later, es) && m'' == m'
  {
    var cur := PageUp(brk);
    forall v: nat ensures v in m' <==> v in m || InRun(v, cur, |ds|) { ExtendAt(m, cur, ds, HEAP_FLAGS, v); }
    assert InRun(cur, cur, |ds|) && cur in m';
    assert |es| > 0 <==> InRun(cur, cur, |es|);
  }

  /** Giving pages back frees exactly the frames that were mapped there. */
  lemma UnmappedFrees(s: Phys, roles: Roles, t: Phys, rest: Roles, root: nat, first: nat, n: nat, f: nat)
    requires Inv(s, roles) && IsRoot(roles, root) && UserRun(first, n) && Unmapped(s, roles, t, rest, root, first, n)
    requires f < |s.used|
    ensures s.used[f] && !t.used[f] <==>
            exists v: nat :: InRun(v, first, n) && v in PageMap(s.mem, root) && PageMap(s.mem, root)[v].frame == f
    ensures t.used[f] ==> s.used[f]
  {
    var m := PageMap(s.mem, root);
    if s.used[f] && !t.used[f] {
      var v: nat :| InRun(v, first, n) && roles[f].path == PathOf(v);
      FrameAtPage(s, roles, root, v, f);
    }
    if v: nat :| InRun(v, first, n) && v in m && m[v].frame == f {
      FrameAtPage(s, roles, root, v, f);
      assert LeafIn(roles[f], root, first, n);
    }
  }

  lemma FrameAtPage(s: Phys, roles: Roles, root: nat, v: nat, f: nat)
    requires Inv(s, roles) && IsRoot(roles, root) && UserPage(v)
    ensures v in PageMap(s.mem, root) && PageMap(s.mem, root)[v].frame == f <==>
            f in roles && roles[f].root == root && roles[f].depth == 4 && roles[f].path == PathOf(v)
    ensures v in PageMap(s.mem, root) && PageMap(s.mem, root)[v].frame == f ==> f < |s.used| && s.used[f]
  {
    PathOfPage(v);
    LookupIsPlacement(s.mem, roles, root, PathOf(v), f);
    assert v in PageMap(s.mem, root) <==> Lookup(s.mem, root, PathOf(v)).Some?;
  }
}

/** A process's whole life of `brk` and `mmap` calls over real page tables: where the heap is, and
    where the mappings made without an address are. */
module ProcessRuns {
  import opened Basics
  import opened Align
  import opened Paging
  import opened PageTree
  import opened PageRuns
  import opened TableNeeds
  import opened RunOps
  import opened BreakLaws
  import opened ProcessOps

  /** Physical memory, and the fields of the thread that the calls update. */
  datatype Proc = Proc(phys: Phys, brkEnd: U64, mmapBase: U64)

  datatype Call = Brk(newEnd: U64) | Map(addr: U64, len: U64, prot: int)

  /** What does not change: the root table, the start of the heap, and the page the heap ends before. */
  datatype Layout = Layout(root: nat, brkStart: U64, limit: nat) {
    function Low(): nat { PageUp(brkStart) }
  }

  function Step(l: Layout, p: Proc, c: Call): Proc {
    match c
    case Brk(newEnd) =>
      if newEnd == 0 then p else
      var r := SetBrk(p.phys, l.root, l.brkStart, p.brkEnd, newEnd);
      Proc(r.0, if r.1 then newEnd else p.brkEnd, p.mmapBase)
    case Map(addr, len, prot) =>
      var r := Mmap(p.phys, l.root, p.mmapBase, addr, len, MmapFlags(prot));
      Proc(r.0, p.brkEnd, r.2)
  }

  ghost function Pm(l: Layout, p: Proc): map<nat, Entry> {
    PageMap(p.phys.mem, l.root)
  }

  /** The heap area lies in the user region, and the mappings follow it. */
  predicate LaidOut(l: Layout, p: Proc) {
    0x800_0000 <= l.Low() <= PageUp(p.brkEnd) <= l.limit <= PageUp(p.mmapBase) < 0x10_0000_0000
  }

  /** The page tables form a tree, and of the heap area exactly the part below the break is mapped. */
  ghost predicate Sound(l: Layout, p: Proc, roles: Roles) {
    && Inv(p.phys, roles) && IsRoot(roles, l.root) && LaidOut(l, p)
    && HeapIs(Pm(l, p), l.Low(), PageUp(p.brkEnd), l.limit)
  }

  /** A growth of the heap that does not stop half-way: frames for all pages, or not even for the first. */
  ghost predicate WholeOrNothing(l: Layout, p: Proc, newEnd: U64) {
    var cur, end := PageUp(p.brkEnd), PageUp(newEnd);
    end > cur ==> Enough(p.phys, l.root, cur, end - cur) || !Enough(p.phys, l.root, cur, 1)
  }

  /** What a program has to keep to: break ends in the heap area, mappings beyond or outside it and
      in the user region, and growths that do not stop half-way. */
  ghost predicate Allowed(l: Layout, p: Proc, c: Call) {
    match c
    case Brk(newEnd) => newEnd != 0 ==> l.Low() <= PageUp(newEnd) <= l.limit && WholeOrNothing(l, p, newEnd)
    case Map(addr, len, _) =>
      var v, n := MmapStart(p.mmapBase, addr) / PAGE_SIZE, MmapPages(len);
      && 0x800_0000 <= v && v + n < 0x10_0000_0000
      && (addr != 0 ==> v + n <= l.Low() || l.limit <= v)
  }

  /** `ps` are the states of a run that makes the calls in turn, each of them allowed. */
  ghost predicate IsRun(l: Layout, ps: seq<Proc>, calls: seq<Call>) {
    |ps| == |calls| + 1 && forall k :: 0 <= k < |calls| ==> RunsAt(l, ps, calls, k)
  }

  ghost predicate RunsAt(l: Layout, ps: seq<Proc>, calls: seq<Call>, k: nat)
    requires |ps| == |calls| + 1 && k < |calls|
  {
    Allowed(l, ps[k], calls[k]) && ps[k + 1] == Step(l, ps[k], calls[k])
  }

  /** Pages outside the heap area are only ever added. */
  ghost predicate KeepsOutside(l: Layout, m: map<nat, Entry>, m': map<nat, Entry>) {
    forall v: nat :: (v < l.Low() || l.limit <= v) && v in m ==> v in m' && m'[v] == m[v]
  }

  // ---------------------------------------------------------------------------------------
  // The break
  // ---------------------------------------------------------------------------------------

  /** From a sound process, with the new end in the heap area, the heap is again what the break says
      exactly if the growth does not stop half-way. */
  lemma BrkExact(l: Layout, p: Proc, roles: Roles, newEnd: U64, p': Proc) returns (after: Roles)
    requires Sound(l, p, roles) && newEnd != 0 && l.Low() <= PageUp(newEnd) <= l.limit && p' == Step(l, p, Brk(newEnd))
    ensures Inv(p'.phys, after) && IsRoot(after, l.root) && LaidOut(l, p') && p'.mmapBase == p.mmapBase
    ensures HeapIs(Pm(l, p'), l.Low(), PageUp(p'.brkEnd), l.limit) <==> WholeOrNothing(l, p, newEnd)
    ensures SameOutside(Pm(l, p), Pm(l, p'), l.Low(), l.limit)
  {
    var t, ok := BrkRuns(l, p, newEnd, p');
    TargetIs(l.brkStart, newEnd);
    var n, ds;
    n, ds, after := BrkOnMaps(p.phys, roles, l.root, l.brkStart, p.brkEnd, newEnd, t, ok);
    HeapAfter(l.brkStart, p.brkEnd, newEnd, Pm(l, p), Pm(l, p'), ds, l.limit, ok);
    WholeIs(l, p, newEnd, n);
  }

  lemma WholeIs(l: Layout, p: Proc, newEnd: U64, n: nat)
    requires PageUp(newEnd) > PageUp(p.brkEnd) ==> n == PageUp(newEnd) - PageUp(p.brkEnd)
    ensures WholeOrNothing(l, p, newEnd) <==>
            PageUp(newEnd) <= PageUp(p.brkEnd) || Enough(p.phys, l.root, PageUp(p.brkEnd), n) || !Enough(p.phys, l.root, PageUp(p.brkEnd), 1)
  {
  }

  lemma BrkRuns(l: Layout, p: Proc, newEnd: U64, p': Proc) returns (t: Phys, ok: bool)
    requires newEnd != 0 && p' == Step(l, p, Brk(newEnd))
    ensures BrksTo(p.phys, l.root, l.brkStart, p.brkEnd, newEnd, t, ok)
    ensures p' == Proc(t, if ok then newEnd else p.brkEnd, p.mmapBase)
  {
    var r := SetBrk(p.phys, l.root, l.brkStart, p.brkEnd, newEnd);
    t, ok := r.0, r.1;
  }

  lemma TargetIs(brkStart: U64, newEnd: U64)
    ensures BreakTarget(brkStart, newEnd) / PAGE_SIZE == if PageUp(newEnd) < PageUp(brkStart) then PageUp(brkStart) else PageUp(newEnd)
  {
  }

  /** A growth that stops half-way leaves mapped pages beyond the break, which stays, and from then on
      no growth from that break maps anything. */
  lemma HalfGrowthSticks(l: Layout, p: Proc, roles: Roles, newEnd: U64, later: U64, p': Proc, p'': Proc) returns (k: nat)
    requires Sound(l, p, roles) && !WholeOrNothing(l, p, newEnd) && newEnd != 0 && PageUp(newEnd) <= l.limit
    requires later != 0 && PageUp(p.brkEnd) < PageUp(later) <= l.limit
    requires p' == Step(l, p, Brk(newEnd)) && p'' == Step(l, p', Brk(later))
    ensures 0 < k < PageUp(newEnd) - PageUp(p.brkEnd) && HeapIs(Pm(l, p'), l.Low(), PageUp(p.brkEnd) + k, l.limit)
    ensures p''.brkEnd == p'.brkEnd == p.brkEnd && Pm(l, p'') == Pm(l, p')
  {
    var t, ok := BrkRuns(l, p, newEnd, p');
    TargetIs(l.brkStart, newEnd);
    var n, ds, after := BrkOnMaps(p.phys, roles, l.root, l.brkStart, p.brkEnd, newEnd, t, ok);
    GrownPart(l, p, after, newEnd, later, p', p'', ds);
    k := |ds|;
  }

  lemma GrownPart(l: Layout, p: Proc, after: Roles, newEnd: U64, later: U64, p': Proc, p'': Proc, ds: seq<nat>)
    requires LaidOut(l, p) && HeapIs(Pm(l, p), l.Low(), PageUp(p.brkEnd), l.limit)
    requires PageUp(p.brkEnd) < PageUp(newEnd) <= l.limit && later != 0 && PageUp(p.brkEnd) < PageUp(later) <= l.limit
    requires Inv(p'.phys, after) && IsRoot(after, l.root) && p'.brkEnd == p.brkEnd && p'' == Step(l, p', Brk(later))
    requires BrkEffect(l.brkStart, p.brkEnd, newEnd, Pm(l, p), Pm(l, p'), ds) && 0 < |ds| < PageUp(newEnd) - PageUp(p.brkEnd)
    ensures HeapIs(Pm(l, p'), l.Low(), PageUp(p.brkEnd) + |ds|, l.limit) && p''.brkEnd == p.brkEnd && Pm(l, p'') == Pm(l, p')
  {
    var u, ok := BrkRuns(l, p', later, p'');
    TargetIs(l.brkStart, newEnd);
    TargetIs(l.brkStart, later);
    var n, es, last := BrkOnMaps(p'.phys, after, l.root, l.brkStart, p.brkEnd, later, u, ok);
    PartialGrowthSticks(l.brkStart, p.brkEnd, newEnd, Pm(l, p), Pm(l, p'), ds, l.limit, later, Pm(l, p''), es);
  }

  /** An end below the start of the heap is accepted, whatever the memory: the break is then below the
      heap, and a growth from there that succeeds maps pages that never belonged to it. */
  lemma BelowStartAccepted(l: Layout, p: Proc, roles: Roles, newEnd: U64, later: U64, v: nat, n: nat, p': Proc, p'': Proc)
    requires v == PageUp(newEnd) && v + n == PageUp(later)
    requires Sound(l, p, roles) && newEnd != 0 && 0x800_0000 <= v < l.Low()
    requires later != 0 && l.Low() <= PageUp(later) <= l.limit
    requires p' == Step(l, p, Brk(newEnd)) && p'' == Step(l, p', Brk(later))
    ensures p'.brkEnd == newEnd
    ensures Enough(p'.phys, l.root, v, n) ==> v !in Pm(l, p') && v in Pm(l, p'') && p''.brkEnd == later
  {
    var t, ok := BrkRuns(l, p, newEnd, p');
    TargetIs(l.brkStart, newEnd);
    TargetIs(l.brkStart, later);
    var n', ds, after := BrkOnMaps(p.phys, roles, l.root, l.brkStart, p.brkEnd, newEnd, t, ok);
    var u, ok' := BrkRuns(l, p', later, p'');
    GrowsBelow(l, p', after, newEnd, later, v, n, u, ok');
  }

  lemma GrowsBelow(l: Layout, p: Proc, roles: Roles, newEnd: U64, later: U64, v: nat, n: nat, u: Phys, ok: bool)
    requires v == PageUp(newEnd) && v + n == PageUp(later)
    requires Inv(p.phys, roles) && IsRoot(roles, l.root) && 0x800_0000 <= v < l.Low() <= v + n < 0x10_0000_0000
    requires BrksTo(p.phys, l.root, l.brkStart, newEnd, later, u, ok)
    ensures Enough(p.phys, l.root, v, n) ==> ok && v !in Pm(l, p) && v in PageMap(u.mem, l.root)
  {
    TargetIs(l.brkStart, later);
    var n', es, last := BrkOnMaps(p.phys, roles, l.root, l.brkStart, newEnd, later, u, ok);
    if ok { GrownAt(l.brkStart, newEnd, later, Pm(l, p), PageMap(u.mem, l.root), es); }
  }

  lemma GrownAt(brkStart: U64, brk: U64, newEnd: U64, m: map<nat, Entry>, m': map<nat, Entry>, ds: seq<nat>)
    requires BrkEffect(brkStart, brk, newEnd, m, m', ds) && Complete(brkStart, brk, newEnd, ds)
    requires BreakTarget(brkStart, newEnd) / PAGE_SIZE > PageUp(brk)
    ensures PageUp(brk) !in m && PageUp(brk) in m'
  {
    var v := PageUp(brk);
    assert InRun(v, v, |ds|);
    ExtendAt(m, v, ds, HEAP_FLAGS, v);
  }

  // ---------------------------------------------------------------------------------------
  // Anonymous mappings
  // ---------------------------------------------------------------------------------------

  /** The call is for a mapping without an address, and it is granted. */
  predicate Granted(l: Layout, p: Proc, c: Call) {
    c.Map? && c.addr == 0 && Mmap(p.phys, l.root, p.mmapBase, 0, c.len, MmapFlags(c.prot)).1.Some?
  }

  lemma MapRuns(l: Layout, p: Proc, addr: U64, len: U64, prot: int, p': Proc) returns (t: Phys, base: Option<U64>, next: U64)
    requires p' == Step(l, p, Map(addr, len, prot))
    ensures MmapsTo(p.phys, l.root, p.mmapBase, addr, len, MmapFlags(prot), t, base, next) && p' == Proc(t, p.brkEnd, next)
    ensures Granted(l, p, Map(addr, len, prot)) <==> addr == 0 && base.Some?
    ensures base.Some? ==> len != 0 && base.value == MmapStart(p.mmapBase, addr)
    ensures next == if addr == 0 && base.Some? then Add64(base.value, AlignUp(len)) else p.mmapBase
  {
    var r := Mmap(p.phys, l.root, p.mmapBase, addr, len, MmapFlags(prot));
    t, base, next := r.0, r.1, r.2;
  }

  lemma NextBase(start: U64, size: U64, v: nat, n: nat)
    requires start % PAGE_SIZE == 0 && size % PAGE_SIZE == 0 && v == start / PAGE_SIZE
    requires n == size / PAGE_SIZE && v + n < 0x10_0000_0000
    ensures PageUp(Add64(start, size)) == v + n
  {
    assert start + size == (v + n) * PAGE_SIZE;
  }

  lemma RunPlaced(l: Layout, p: Proc, addr: U64, len: U64, v: nat, n: nat)
    requires LaidOut(l, p) && Allowed(l, p, Map(addr, len, 0))
    requires v == MmapStart(p.mmapBase, addr) / PAGE_SIZE && n == MmapPages(len)
    ensures Pages(MmapStart(p.mmapBase, addr), v, n) && v + n < 0x10_0000_0000 && (v + n <= l.Low() || l.limit <= v)
    ensures addr == 0 ==> v == PageUp(p.mmapBase) && PageUp(Add64(MmapStart(p.mmapBase, addr), AlignUp(len))) == v + n
  {
    NextBase(MmapStart(p.mmapBase, addr), AlignUp(len), v, n);
  }

  /** A mapping keeps to its run, which is outside the heap area. */
  lemma HeapKept(l: Layout, m: map<nat, Entry>, v: nat, ds: seq<nat>, flags: Flags, hi: nat)
    requires Vacant(m, v, |ds|) && (v + |ds| <= l.Low() || l.limit <= v) && HeapIs(m, l.Low(), hi, l.limit)
    ensures HeapIs(Extend(m, v, ds, flags), l.Low(), hi, l.limit) && KeepsOutside(l, m, Extend(m, v, ds, flags))
    ensures forall w: nat :: InRun(w, v, |ds|) ==> w !in m && w in Extend(m, v, ds, flags)
  {
    forall w: nat
      ensures w in Extend(m, v, ds, flags) <==> w in m || InRun(w, v, |ds|)
      ensures w in m ==> Extend(m, v, ds, flags)[w] == m[w]
    {
      ExtendAt(m, v, ds, flags, w);
    }
  }

  /** What a mapping comes to: `v` and `n` are the run of pages asked for. */
  ghost predicate MapDone(l: Layout, p: Proc, p': Proc, after: Roles, granted: bool, v: nat, n: nat) {
    && Sound(l, p', after) && KeepsOutside(l, Pm(l, p), Pm(l, p'))
    && PageUp(p'.mmapBase) == (if granted then v + n else PageUp(p.mmapBase))
    && (granted ==> v == PageUp(p.mmapBase) && forall w: nat :: InRun(w, v, n) ==> w !in Pm(l, p) && w in Pm(l, p'))
  }

  lemma MapNone(l: Layout, p: Proc, p': Proc, after: Roles, v: nat, n: nat)
    requires LaidOut(l, p) && HeapIs(Pm(l, p), l.Low(), PageUp(p.brkEnd), l.limit) && p' == Proc(p'.phys, p.brkEnd, p.mmapBase)
    requires Inv(p'.phys, after) && IsRoot(after, l.root) && Pm(l, p') == Pm(l, p)
    ensures MapDone(l, p, p', after, false, v, n)
  {
  }

  lemma MapAll(l: Layout, p: Proc, p': Proc, after: Roles, granted: bool, v: nat, n: nat, ds: seq<nat>, flags: Flags)
    requires LaidOut(l, p) && HeapIs(Pm(l, p), l.Low(), PageUp(p.brkEnd), l.limit) && p'.brkEnd == p.brkEnd
    requires Inv(p'.phys, after) && IsRoot(after, l.root) && |ds| == n && v + n < 0x10_0000_0000
    requires Vacant(Pm(l, p), v, n) && Pm(l, p') == Extend(Pm(l, p), v, ds, flags) && (v + n <= l.Low() || l.limit <= v)
    requires if granted then v == PageUp(p.mmapBase) && PageUp(p'.mmapBase) == v + n else p'.mmapBase == p.mmapBase
    ensures MapDone(l, p, p', after, granted, v, n)
  {
    HeapKept(l, Pm(l, p), v, ds, flags, PageUp(p.brkEnd));
  }

  /** A mapping without an address is granted exactly when its pages are vacant and there are frames for
      them and their missing tables; every mapping leaves the heap and all other pages alone. */
  lemma MapExact(l: Layout, p: Proc, roles: Roles, addr: U64, len: U64, prot: int, v: nat, n: nat, p': Proc)
    returns (granted: bool, after: Roles)
    requires Sound(l, p, roles) && Allowed(l, p, Map(addr, len, prot)) && p' == Step(l, p, Map(addr, len, prot))
    requires v == MmapStart(p.mmapBase, addr) / PAGE_SIZE && n == MmapPages(len)
    ensures granted == Granted(l, p, Map(addr, len, prot)) && (granted <==> addr == 0 && len != 0 && Enough(p.phys, l.root, v, n))
    ensures MapDone(l, p, p', after, granted, v, n)
  {
    var t, base, next := MapRuns(l, p, addr, len, prot, p');
    granted, after := addr == 0 && base.Some?, roles;
    if len != 0 {
      var ds;
      RunPlaced(l, p, addr, len, v, n);
      ds, after := MmapLaw(p.phys, roles, l.root, p.mmapBase, addr, len, MmapFlags(prot), v, n, t, base, next);
      if base.Some? { MapAll(l, p, p', after, granted, v, n, ds, MmapFlags(prot)); } else { MapNone(l, p, p', after, v, n); }
    } else {
      MapNone(l, p, p', after, v, n);
    }
  }

  // ---------------------------------------------------------------------------------------
  // Every run
  // ---------------------------------------------------------------------------------------

  lemma StepKeeps(l: Layout, p: Proc, roles: Roles, c: Call, p': Proc) returns (after: Roles)
    requires Sound(l, p, roles) && Allowed(l, p, c) && p' == Step(l, p, c)
    ensures Sound(l, p', after) && KeepsOutside(l, Pm(l, p), Pm(l, p')) && PageUp(p.mmapBase) <= PageUp(p'.mmapBase)
  {
    match c
    case Brk(newEnd) =>
      after := roles;
      if newEnd != 0 { after := BrkExact(l, p, roles, newEnd, p'); }
    case Map(addr, len, prot) =>
      var granted;
      granted, after := MapExact(l, p, roles, addr, len, prot, MmapStart(p.mmapBase, addr) / PAGE_SIZE, MmapPages(len), p');
  }

  lemma NextKeeps(l: Layout, ps: seq<Proc>, calls: seq<Call>, k: nat, roles: Roles) returns (next: nat, after: Roles)
    requires IsRun(l, ps, calls) && k < |calls| && Sound(l, ps[k], roles)
    ensures next == k + 1 && Sound(l, ps[next], after)
    ensures KeepsOutside(l, Pm(l, ps[k]), Pm(l, ps[next])) && PageUp(ps[k].mmapBase) <= PageUp(ps[next].mmapBase)
  {
    next := k + 1;
    assert RunsAt(l, ps, calls, k);
    after := StepKeeps(l, ps[k], roles, calls[k], ps[next]);
  }

  /** In every run of allowed calls, at every point the page tables form a tree and the heap is mapped
      exactly up to the break. From any point `i` on no page outside the heap area is lost or moved,
      and the mapping base does not go back. */
  lemma EveryRun(l: Layout, ps: seq<Proc>, calls: seq<Call>, i: nat, k: nat, roles: Roles) returns (after: Roles)
    requires IsRun(l, ps, calls) && i <= k < |ps| && Sound(l, ps[i], roles)
    ensures Sound(l, ps[k], after)
    ensures KeepsOutside(l, Pm(l, ps[i]), Pm(l, ps[k])) && PageUp(ps[i].mmapBase) <= PageUp(ps[k].mmapBase)
  {
    var j := i;
    after := roles;
    while j < k
      invariant i <= j <= k && Sound(l, ps[j], after)
      invariant KeepsOutside(l, Pm(l, ps[i]), Pm(l, ps[j])) && PageUp(ps[i].mmapBase) <= PageUp(ps[j].mmapBase)
    {
      j, after := NextKeeps(l, ps, calls, j, after);
    }
  }

  /** A mapping without an address that call `i` of a run was granted: its pages were vacant, and they
      stay mapped to the same frames to the end of the run. It begins at the mapping base before the
      call, and whatever is granted later begins after its end. */
  lemma GrantsFollow(l: Layout, ps: seq<Proc>, calls: seq<Call>, i: nat, j: nat, roles: Roles, next: nat, v: nat, n: nat)
    requires IsRun(l, ps, calls) && Sound(l, ps[0], roles) && i < j < |ps| && next == i + 1
    requires Granted(l, ps[i], calls[i]) && v == PageUp(ps[i].mmapBase) && n == MmapPages(calls[i].len)
    ensures v + n <= PageUp(ps[j].mmapBase)
    ensures forall w: nat :: InRun(w, v, n) ==>
              w !in Pm(l, ps[i]) && w in Pm(l, ps[next]) && w in Pm(l, ps[j]) && Pm(l, ps[j])[w] == Pm(l, ps[next])[w]
  {
    var r := EveryRun(l, ps, calls, 0, i, roles);
    var r' := GrantedNext(l, ps, calls, i, r, next, v, n);
    var rj := EveryRun(l, ps, calls, next, j, r');
  }

  lemma GrantedNext(l: Layout, ps: seq<Proc>, calls: seq<Call>, i: nat, roles: Roles, next: nat, v: nat,
                    n: nat) returns (after: Roles)
    requires IsRun(l, ps, calls) && i < |calls| && Sound(l, ps[i], roles) && next == i + 1
    requires Granted(l, ps[i], calls[i]) && v == PageUp(ps[i].mmapBase) && n == MmapPages(calls[i].len)
    ensures l.limit <= v && MapDone(l, ps[i], ps[next], after, true, v, n)
  {
    assert RunsAt(l, ps, calls, i);
    var c, granted := calls[i], true;
    granted, after := MapExact(l, ps[i], roles, c.addr, c.len, c.prot, v, n, ps[next]);
  }
}

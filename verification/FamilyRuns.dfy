/** Threads that share one address space after `fork`, each with its own break and its own mapping base:
    when the heap follows a thread's break, over every run of their calls. */
module FamilyRuns {
  import opened Align
  import opened Paging
  import opened PageTree
  import opened PageRuns
  import opened TableNeeds
  import opened BreakLaws
  import opened ProcessOps
  import opened ProcessRuns

  /** What a thread keeps of the heap and of the mappings; `fork` copies it. */
  datatype Member = Member(brkEnd: U64, mmapBase: U64)

  datatype Family = Family(phys: Phys, members: seq<Member>)

  datatype Act = Calls(t: nat, c: Call) | Forks(t: nat)

  function AsProc(f: Family, t: nat): Proc
    requires t < |f.members|
  {
    Proc(f.phys, f.members[t].brkEnd, f.members[t].mmapBase)
  }

  function Perform(l: Layout, f: Family, a: Act): Family
    requires a.t < |f.members|
  {
    match a
    case Calls(t, c) =>
      var p := Step(l, AsProc(f, t), c);
      Family(p.phys, f.members[t := Member(p.brkEnd, p.mmapBase)])
    case Forks(t) => f.(members := f.members + [f.members[t]])
  }

  ghost function MapOf(l: Layout, f: Family): map<nat, Entry> {
    PageMap(f.phys.mem, l.root)
  }

  function Break(f: Family, t: nat): nat
    requires t < |f.members|
  {
    PageUp(f.members[t].brkEnd)
  }

  /** The first page of [lo, limit) that is not mapped. */
  function FirstGap(m: map<nat, Entry>, lo: nat, limit: nat): (hi: nat)
    ensures lo <= limit ==> lo <= hi <= limit
    ensures forall v: nat :: lo <= v < hi ==> v in m
    ensures hi < limit ==> hi !in m
    decreases limit - lo
  {
    if lo >= limit || lo !in m then lo else FirstGap(m, lo + 1, limit)
  }

  ghost function HeapTop(l: Layout, f: Family): nat {
    FirstGap(MapOf(l, f), l.Low(), l.limit)
  }

  /** The mapped part of the heap area has no holes. */
  ghost predicate NoHoles(l: Layout, m: map<nat, Entry>) {
    HeapIs(m, l.Low(), FirstGap(m, l.Low(), l.limit), l.limit)
  }

  /** The heap is mapped exactly up to the thread's break. */
  ghost predicate Follows(l: Layout, f: Family, t: nat)
    requires t < |f.members|
  {
    HeapIs(MapOf(l, f), l.Low(), Break(f, t), l.limit)
  }

  /** The member's break lies in the heap area, and its mappings follow that. */
  predicate InPlace(l: Layout, m: Member) {
    l.Low() <= PageUp(m.brkEnd) <= l.limit <= PageUp(m.mmapBase) < 0x10_0000_0000
  }

  ghost predicate AllPlaced(l: Layout, ms: seq<Member>) {
    forall t :: 0 <= t < |ms| ==> InPlace(l, ms[t])
  }

  /** The page tables form a tree, the heap has no holes, and every member's break and base are in place. */
  ghost predicate Settled(l: Layout, f: Family, roles: Roles) {
    && Inv(f.phys, roles) && IsRoot(roles, l.root) && 0x800_0000 <= l.Low() <= l.limit && NoHoles(l, MapOf(l, f))
    && AllPlaced(l, f.members)
  }

  /** A call of `brk` that makes no hole: a growth from the end of the mapped heap, or one that gets no page; or
      no less of a break, or less of one that was not below the end of the mapped heap. */
  ghost predicate Tidy(l: Layout, f: Family, t: nat, newEnd: U64)
    requires t < |f.members|
  {
    var cur, end, hi := Break(f, t), PageUp(newEnd), HeapTop(l, f);
    if end > cur then cur == hi || !Enough(f.phys, l.root, cur, 1) else end == cur || hi <= cur
  }

  /** A call of `brk` after which the heap follows the caller's break. */
  ghost predicate Leads(l: Layout, f: Family, t: nat, newEnd: U64)
    requires t < |f.members|
  {
    var cur, end, hi := Break(f, t), PageUp(newEnd), HeapTop(l, f);
    if end > cur then cur == hi && WholeOrNothing(l, AsProc(f, t), newEnd) else end <= hi <= cur
  }

  /** A growth for which there is not everything. */
  ghost predicate Refused(l: Layout, f: Family, t: nat, newEnd: U64)
    requires t < |f.members|
  {
    var cur, end := Break(f, t), PageUp(newEnd);
    end > cur && !Enough(f.phys, l.root, cur, end - cur)
  }

  lemma RefusedIs(l: Layout, f: Family, t: nat, newEnd: U64, n: nat)
    requires t < |f.members| && (PageUp(newEnd) > Break(f, t) ==> n == PageUp(newEnd) - Break(f, t))
    ensures Refused(l, f, t, newEnd) <==> PageUp(newEnd) > Break(f, t) && !Enough(f.phys, l.root, Break(f, t), n)
  {
  }

  lemma TopIs(m: map<nat, Entry>, lo: nat, hi: nat, limit: nat)
    requires HeapIs(m, lo, hi, limit) && lo <= hi <= limit
    ensures FirstGap(m, lo, limit) == hi
  {
    var k := FirstGap(m, lo, limit);
    assert k < hi ==> k in m;
    assert hi < k ==> hi in m;
  }

  /** What a call does to the plain map of the pages, hole by hole. */
  lemma BrkOnHeap(l: Layout, brk: U64, newEnd: U64, m: map<nat, Entry>, m': map<nat, Entry>, ds: seq<nat>, hi: nat,
                  cur: nat, end: nat)
    requires BrkEffect(l.brkStart, brk, newEnd, m, m', ds) && cur == PageUp(brk) && end == PageUp(newEnd)
    requires l.Low() <= cur <= l.limit && l.Low() <= end <= l.limit && (end > cur ==> |ds| <= end - cur)
    requires l.Low() <= hi <= l.limit && HeapIs(m, l.Low(), hi, l.limit)
    ensures end > cur && cur < hi ==> ds == []
    ensures forall v: nat :: l.Low() <= v < l.limit ==>
              (v in m' <==> if end > cur then v < hi || InRun(v, cur, |ds|) else v < hi && !(end <= v < cur))
    ensures SameOutside(m, m', l.Low(), l.limit)
  {
    assert end == BreakTarget(l.brkStart, newEnd) / PAGE_SIZE;
    forall v: nat
      ensures (v in m' <==> if end > cur then v in m || InRun(v, cur, |ds|) else v in m && !(end <= v < cur))
              && (v in m && v in m' ==> m'[v] == m[v])
    {
      if end > cur { ExtendAt(m, cur, ds, HEAP_FLAGS, v); } else { DropAt(m, end, cur - end, v); }
    }
    if end > cur && cur < hi { assert cur in m && (|ds| > 0 <==> InRun(cur, cur, |ds|)); }
  }

  /** Where the mapped heap ends, if it has no holes, after `d` pages of a growth or after a reduction. */
  function NewTop(hi: nat, cur: nat, end: nat, d: nat): nat {
    if end > cur then (if cur == hi then hi + d else hi)
    else if hi <= cur && end < hi then end else hi
  }

  lemma HolesAfter(l: Layout, m: map<nat, Entry>, hi: nat, cur: nat, end: nat, d: nat)
    requires l.Low() <= cur <= l.limit && l.Low() <= end <= l.limit && l.Low() <= hi <= l.limit
    requires end > cur ==> d <= end - cur && (cur < hi ==> d == 0)
    requires forall v: nat :: l.Low() <= v < l.limit ==>
               (v in m <==> if end > cur then v < hi || InRun(v, cur, d) else v < hi && !(end <= v < cur))
    ensures NoHoles(l, m) <==> if end > cur then cur == hi || d == 0 else end == cur || hi <= cur
    ensures NoHoles(l, m) ==> FirstGap(m, l.Low(), l.limit) == NewTop(hi, cur, end, d)
  {
    var top := FirstGap(m, l.Low(), l.limit);
    if end > cur && cur != hi && d != 0 {
      assert InRun(cur, cur, d) && cur in m && hi !in m;
    } else if end < cur < hi {
      assert end !in m && cur in m;
    } else {
      var n := NewTop(hi, cur, end, d);
      assert HeapIs(m, l.Low(), n, l.limit);
      TopIs(m, l.Low(), n, l.limit);
    }
  }

  /** The heap is mapped up to page `x` exactly if it has no holes and ends there. */
  lemma FollowsIs(l: Layout, m: map<nat, Entry>, x: nat)
    requires l.Low() <= x <= l.limit
    ensures HeapIs(m, l.Low(), x, l.limit) <==> NoHoles(l, m) && FirstGap(m, l.Low(), l.limit) == x
  {
    if HeapIs(m, l.Low(), x, l.limit) { TopIs(m, l.Low(), x, l.limit); }
  }

  /** From a settled family and with the new end in the heap area, for every member: the heap is left
      without holes exactly if the call is tidy, and follows the caller's break exactly if the call leads it. */
  lemma BrkExactly(l: Layout, f: Family, roles: Roles, t: nat, newEnd: U64, f': Family) returns (after: Roles)
    requires Settled(l, f, roles) && t < |f.members| && newEnd != 0 && l.Low() <= PageUp(newEnd) <= l.limit
    requires f' == Perform(l, f, Calls(t, Brk(newEnd)))
    ensures Inv(f'.phys, after) && IsRoot(after, l.root) && SameOutside(MapOf(l, f), MapOf(l, f'), l.Low(), l.limit)
    ensures NoHoles(l, MapOf(l, f')) <==> Tidy(l, f, t, newEnd)
    ensures Follows(l, f', t) <==> Leads(l, f, t, newEnd)
    ensures f'.members[t].brkEnd == if Refused(l, f, t, newEnd) then f.members[t].brkEnd else newEnd
    ensures l.Low() <= Break(f', t) <= l.limit
    ensures f'.members == f.members[t := Member(f'.members[t].brkEnd, f.members[t].mmapBase)]
  {
    var p := AsProc(f, t);
    var p' := Step(l, p, Brk(newEnd));
    var cur, end, hi := Break(f, t), PageUp(newEnd), HeapTop(l, f);
    assert InPlace(l, f.members[t]);
    var u, ok := BrkRuns(l, p, newEnd, p');
    TargetIs(l.brkStart, newEnd);
    var n, ds;
    n, ds, after := BrkOnMaps(f.phys, roles, l.root, l.brkStart, p.brkEnd, newEnd, u, ok);
    BrkOnHeap(l, p.brkEnd, newEnd, MapOf(l, f), MapOf(l, f'), ds, hi, cur, end);
    HolesAfter(l, MapOf(l, f'), hi, cur, end, |ds|);
    FollowsIs(l, MapOf(l, f'), Break(f', t));
    WholeIs(l, p, newEnd, n);
    RefusedIs(l, f, t, newEnd, n);
  }

  lemma PageUpOf(v: nat, a: U64)
    requires v < 0x10_0000_0000 && a == v * PAGE_SIZE
    ensures PageUp(a) == v
  {
  }

  /** Member `t` with its break where the heap ends. */
  lemma AtTop(l: Layout, f: Family, roles: Roles, t: nat) returns (q: Proc)
    requires Settled(l, f, roles) && t < |f.members|
    ensures q == AsProc(f, t).(brkEnd := q.brkEnd) && PageUp(q.brkEnd) == HeapTop(l, f) && ProcessRuns.Sound(l, q, roles)
  {
    var p := AsProc(f, t);
    assert InPlace(l, f.members[t]);
    var hi := HeapTop(l, f);
    q := p.(brkEnd := hi * PAGE_SIZE);
    PageUpOf(hi, q.brkEnd);
  }

  /** A mapping does not depend on the break. */
  lemma BreakAside(l: Layout, p: Proc, q: Proc, c: Call, p': Proc, q': Proc)
    requires q == p.(brkEnd := q.brkEnd) && c.Map? && p' == Step(l, p, c) && q' == Step(l, q, c)
    ensures p' == q'.(brkEnd := p.brkEnd) && q'.brkEnd == q.brkEnd && (Allowed(l, q, c) <==> Allowed(l, p, c))
    ensures Granted(l, q, c) <==> Granted(l, p, c)
  {
  }

  /** What a mapping by member `t` does to the family. */
  ghost predicate FamilyMapped(l: Layout, f: Family, t: nat, f': Family, granted: bool, n: nat)
    requires t < |f.members|
  {
    && |f'.members| == |f.members| && f'.members == f.members[t := Member(f.members[t].brkEnd, f'.members[t].mmapBase)]
    && HeapTop(l, f') == HeapTop(l, f) && KeepsOutside(l, MapOf(l, f), MapOf(l, f'))
    && var v := PageUp(f.members[t].mmapBase);
       && PageUp(f'.members[t].mmapBase) == (if granted then v + n else v)
       && (granted ==> forall w: nat :: InRun(w, v, n) ==> w !in MapOf(l, f) && w in MapOf(l, f'))
  }

  /** Every member's mapping without an address is granted exactly when its pages are vacant and there are
      frames for them and their missing tables; it begins at that member's base and moves that base alone. */
  lemma MapExactly(l: Layout, f: Family, roles: Roles, t: nat, c: Call, f': Family, v: nat,
                   n: nat) returns (granted: bool, after: Roles)
    requires Settled(l, f, roles) && t < |f.members| && c.Map? && Allowed(l, AsProc(f, t), c) && f' == Perform(l, f, Calls(t, c))
    requires v == MmapStart(f.members[t].mmapBase, c.addr) / PAGE_SIZE && n == MmapPages(c.len)
    ensures granted == Granted(l, AsProc(f, t), c) && (granted <==> c.addr == 0 && c.len != 0 && Enough(f.phys, l.root, v, n))
    ensures Settled(l, f', after) && FamilyMapped(l, f, t, f', granted, n)
  {
    var q := AtTop(l, f, roles, t);
    var p := AsProc(f, t);
    var p', q' := Step(l, p, c), Step(l, q, c);
    BreakAside(l, p, q, c, p', q');
    granted, after := MapExact(l, q, roles, c.addr, c.len, c.prot, v, n, q');
    MappedGlue(l, f, t, f', q, q', after, granted, v, n);
  }

  lemma MappedGlue(l: Layout, f: Family, t: nat, f': Family, q: Proc, q': Proc, after: Roles, granted: bool, v: nat, n: nat)
    requires t < |f.members| && q == AsProc(f, t).(brkEnd := q.brkEnd)
    requires PageUp(q.brkEnd) == HeapTop(l, f) && q'.brkEnd == q.brkEnd
    requires AllPlaced(l, f.members) && 0x800_0000 <= l.Low() <= l.limit
    requires f' == Family(q'.phys, f.members[t := Member(f.members[t].brkEnd, q'.mmapBase)])
    requires MapDone(l, q, q', after, granted, v, n)
    ensures Settled(l, f', after) && FamilyMapped(l, f, t, f', granted, n)
  {
    var hi := PageUp(q.brkEnd);
    TopIs(MapOf(l, f'), l.Low(), hi, l.limit);
    assert InPlace(l, f.members[t]);
  }

  // ---------------------------------------------------------------------------------------
  // Every run
  // ---------------------------------------------------------------------------------------

  /** What the family has to keep to: break ends in the heap area and calls that make no hole, and mappings
      outside it and in the user region. */
  ghost predicate Fits(l: Layout, f: Family, a: Act) {
    a.t < |f.members| &&
    match a
    case Calls(t, Brk(newEnd)) => newEnd != 0 ==> l.Low() <= PageUp(newEnd) <= l.limit && Tidy(l, f, t, newEnd)
    case Calls(t, c) => Allowed(l, AsProc(f, t), c)
    case Forks(_) => true
  }

  ghost predicate ActsAt(l: Layout, fs: seq<Family>, acts: seq<Act>, k: nat)
    requires |fs| == |acts| + 1 && k < |acts|
  {
    Fits(l, fs[k], acts[k]) && fs[k + 1] == Perform(l, fs[k], acts[k])
  }

  /** `fs` are the states of a run that takes the acts in turn, each of them fitting. */
  ghost predicate IsFamilyRun(l: Layout, fs: seq<Family>, acts: seq<Act>) {
    |fs| == |acts| + 1 && forall k :: 0 <= k < |acts| ==> ActsAt(l, fs, acts, k)
  }

  lemma BrkKeeps(l: Layout, f: Family, roles: Roles, t: nat, newEnd: U64, f': Family) returns (after: Roles)
    requires Settled(l, f, roles) && Fits(l, f, Calls(t, Brk(newEnd))) && f' == Perform(l, f, Calls(t, Brk(newEnd)))
    ensures Settled(l, f', after) && KeepsOutside(l, MapOf(l, f), MapOf(l, f'))
    ensures |f'.members| == |f.members| && f'.members == f.members[t := Member(f'.members[t].brkEnd, f.members[t].mmapBase)]
  {
    after := roles;
    if newEnd != 0 {
      after := BrkExactly(l, f, roles, t, newEnd, f');
      assert InPlace(l, f.members[t]);
    } else {
      assert f' == f;
    }
  }

  lemma ForkKeeps(l: Layout, f: Family, roles: Roles, t: nat, f': Family)
    requires Settled(l, f, roles) && t < |f.members| && f' == Perform(l, f, Forks(t))
    ensures Settled(l, f', roles)
  {
    assert InPlace(l, f.members[t]);
  }

  lemma ActKeeps(l: Layout, f: Family, roles: Roles, a: Act, f': Family) returns (after: Roles)
    requires Settled(l, f, roles) && Fits(l, f, a) && f' == Perform(l, f, a)
    ensures Settled(l, f', after) && KeepsOutside(l, MapOf(l, f), MapOf(l, f')) && |f.members| <= |f'.members|
  {
    match a
    case Calls(t, Brk(newEnd)) => after := BrkKeeps(l, f, roles, t, newEnd, f');
    case Calls(t, c) =>
      var granted;
      granted, after := MapExactly(l, f, roles, t, c, f', MmapStart(f.members[t].mmapBase, c.addr) / PAGE_SIZE, MmapPages(c.len));
    case Forks(t) =>
      after := roles;
      ForkKeeps(l, f, roles, t, f');
  }

  /** In every run of fitting acts, at every point the page tables form a tree and the heap has no holes; it
      follows the break of exactly those members whose break is where it ends; and from any point `i` on no
      page outside the heap area is lost or moved. */
  lemma EveryRun(l: Layout, fs: seq<Family>, acts: seq<Act>, i: nat, k: nat, roles: Roles) returns (after: Roles)
    requires IsFamilyRun(l, fs, acts) && i <= k < |fs| && Settled(l, fs[i], roles)
    ensures Settled(l, fs[k], after) && KeepsOutside(l, MapOf(l, fs[i]), MapOf(l, fs[k])) && |fs[i].members| <= |fs[k].members|
    ensures forall t: nat :: t < |fs[k].members| ==> (Follows(l, fs[k], t) <==> Break(fs[k], t) == HeapTop(l, fs[k]))
  {
    var j := i;
    after := roles;
    while j < k
      invariant i <= j <= k && Settled(l, fs[j], after)
      invariant KeepsOutside(l, MapOf(l, fs[i]), MapOf(l, fs[j])) && |fs[i].members| <= |fs[j].members|
    {
      j, after := ActNext(l, fs, acts, j, after);
    }
    forall t: nat | t < |fs[k].members| ensures Follows(l, fs[k], t) <==> Break(fs[k], t) == HeapTop(l, fs[k]) {
      assert InPlace(l, fs[k].members[t]);
      FollowsIs(l, MapOf(l, fs[k]), Break(fs[k], t));
    }
  }

  lemma ActNext(l: Layout, fs: seq<Family>, acts: seq<Act>, k: nat, roles: Roles) returns (next: nat, after: Roles)
    requires IsFamilyRun(l, fs, acts) && k < |acts| && Settled(l, fs[k], roles)
    ensures next == k + 1 && Settled(l, fs[next], after)
    ensures KeepsOutside(l, MapOf(l, fs[k]), MapOf(l, fs[next])) && |fs[k].members| <= |fs[next].members|
  {
    next := k + 1;
    assert ActsAt(l, fs, acts, k);
    after := ActKeeps(l, fs[k], roles, acts[k], fs[next]);
  }

  // ---------------------------------------------------------------------------------------
  // What members do to one another
  // ---------------------------------------------------------------------------------------

  lemma GrowthLeads(l: Layout, f: Family, t: nat, more: U64, n: nat)
    requires t < |f.members| && Break(f, t) == HeapTop(l, f) < PageUp(more) && n == PageUp(more) - Break(f, t)
    requires !Refused(l, f, t, more)
    ensures Leads(l, f, t, more) && Tidy(l, f, t, more)
  {
    WholeIs(l, AsProc(f, t), more, n);
    RefusedIs(l, f, t, more, n);
  }

  /** A member grows the heap beyond the break of another. */
  lemma GrownPast(l: Layout, f: Family, roles: Roles, t: nat, more: U64, f': Family) returns (after: Roles)
    requires Settled(l, f, roles) && t < |f.members| && more != 0 && Break(f, t) == HeapTop(l, f) < PageUp(more) <= l.limit
    requires !Refused(l, f, t, more) && f' == Perform(l, f, Calls(t, Brk(more)))
    ensures Settled(l, f', after) && HeapTop(l, f') == Break(f', t) == PageUp(more)
    ensures |f'.members| == |f.members| && forall u: nat :: u < |f.members| && u != t ==> f'.members[u] == f.members[u]
  {
    GrowthLeads(l, f, t, more, PageUp(more) - Break(f, t));
    after := BrkExactly(l, f, roles, t, more, f');
    assert InPlace(l, f.members[t]);
    FollowsIs(l, MapOf(l, f'), PageUp(more));
  }

  /** Two members whose breaks are the end of the heap, one grows it, and the other gives some of it back:
      a hole is left, and the heap follows nobody's break. */
  lemma HoleMade(l: Layout, f: Family, roles: Roles, t: nat, u: nat, more: U64, less: U64, f': Family, f'': Family)
    requires Settled(l, f, roles) && t < |f.members| && u < |f.members| && t != u && more != 0 && less != 0
    requires l.Low() <= PageUp(less) < Break(f, t) == Break(f, u) == HeapTop(l, f) < PageUp(more) <= l.limit
    requires !Refused(l, f, t, more)
    requires f' == Perform(l, f, Calls(t, Brk(more))) && f'' == Perform(l, f', Calls(u, Brk(less)))
    ensures !NoHoles(l, MapOf(l, f'')) && !Follows(l, f'', t) && !Follows(l, f'', u)
  {
    var r := GrownPast(l, f, roles, t, more, f');
    var r' := BrkExactly(l, f', r, u, less, f'');
    FollowsIs(l, MapOf(l, f''), Break(f'', t));
    FollowsIs(l, MapOf(l, f''), Break(f'', u));
  }

  /** The page at which the member's next mapping would begin is taken. */
  ghost predicate Stuck(l: Layout, f: Family, u: nat, v: nat) {
    u < |f.members| && PageUp(f.members[u].mmapBase) == v && l.limit <= v && v in MapOf(l, f)
  }

  /** The act is a mapping of at least a page for member `u`, without an address. */
  predicate AsksPlace(a: Act, u: nat) {
    a.Calls? && a.t == u && a.c.Map? && a.c.addr == 0 && MmapPages(a.c.len) > 0
  }

  lemma TakenIsNotEnough(s: Phys, root: nat, v: nat, n: nat)
    requires v in PageMap(s.mem, root) && n > 0
    ensures !Enough(s, root, v, n)
  {
    assert InRun(v, v, n);
  }

  lemma StaysStuck(l: Layout, f: Family, roles: Roles, a: Act, f': Family, u: nat, v: nat) returns (after: Roles)
    requires Settled(l, f, roles) && Fits(l, f, a) && f' == Perform(l, f, a) && Stuck(l, f, u, v)
    ensures Settled(l, f', after) && Stuck(l, f', u, v)
  {
    match a
    case Calls(t, Brk(newEnd)) => after := BrkKeeps(l, f, roles, t, newEnd, f');
    case Calls(t, c) =>
      var w, n := MmapStart(f.members[t].mmapBase, c.addr) / PAGE_SIZE, MmapPages(c.len);
      var granted;
      granted, after := MapExactly(l, f, roles, t, c, f', w, n);
      if t == u && c.addr == 0 && n > 0 { TakenIsNotEnough(f.phys, l.root, v, n); }
    case Forks(t) =>
      after := roles;
      ForkKeeps(l, f, roles, t, f');
  }

  lemma StuckRefused(l: Layout, f: Family, roles: Roles, c: Call, u: nat, v: nat)
    requires Settled(l, f, roles) && Fits(l, f, Calls(u, c)) && Stuck(l, f, u, v) && AsksPlace(Calls(u, c), u)
    ensures !Granted(l, AsProc(f, u), c)
  {
    var n := MmapPages(c.len);
    TakenIsNotEnough(f.phys, l.root, v, n);
    var granted, after := MapExactly(l, f, roles, u, c, Perform(l, f, Calls(u, c)), v, n);
  }

  lemma StuckNext(l: Layout, fs: seq<Family>, acts: seq<Act>, k: nat, roles: Roles, u: nat,
                  v: nat) returns (next: nat, after: Roles)
    requires IsFamilyRun(l, fs, acts) && k < |acts| && Settled(l, fs[k], roles) && Stuck(l, fs[k], u, v)
    ensures next == k + 1 && Settled(l, fs[next], after) && Stuck(l, fs[next], u, v)
  {
    next := k + 1;
    assert ActsAt(l, fs, acts, k);
    after := StaysStuck(l, fs[k], roles, acts[k], fs[next], u, v);
  }

  lemma {:induction false} StuckLater(l: Layout, fs: seq<Family>, acts: seq<Act>, i: nat, j: nat, roles: Roles, u: nat, v: nat)
    returns (after: Roles)
    requires IsFamilyRun(l, fs, acts) && i <= j < |fs| && Settled(l, fs[i], roles) && Stuck(l, fs[i], u, v)
    ensures Settled(l, fs[j], after) && Stuck(l, fs[j], u, v)
    decreases j - i
  {
    after := roles;
    if i < j {
      var next;
      next, after := StuckNext(l, fs, acts, i, after, u, v);
      after := StuckLater(l, fs, acts, next, j, after, u, v);
    }
  }

  /** Two members have the same mapping base, as after a fork, and one is granted a mapping without an
      address: from then on, whatever the family does, the other is never granted one. */
  lemma SiblingStuck(l: Layout, fs: seq<Family>, acts: seq<Act>, i: nat, j: nat, t: nat, u: nat, roles: Roles)
    requires IsFamilyRun(l, fs, acts) && i < j < |acts| && Settled(l, fs[i], roles)
    requires t < |fs[i].members| && u < |fs[i].members| && t != u
    requires AsksPlace(acts[i], t) && Granted(l, AsProc(fs[i], t), acts[i].c)
    requires PageUp(fs[i].members[u].mmapBase) == PageUp(fs[i].members[t].mmapBase)
    ensures u < |fs[j].members| && PageUp(fs[j].members[u].mmapBase) == PageUp(fs[i].members[u].mmapBase)
    ensures AsksPlace(acts[j], u) ==> !Granted(l, AsProc(fs[j], u), acts[j].c)
  {
    var v := PageUp(fs[i].members[u].mmapBase);
    var k, after := TakenNext(l, fs, acts, i, roles, t, u, v);
    after := StuckLater(l, fs, acts, k, j, after, u, v);
    assert ActsAt(l, fs, acts, j);
    if AsksPlace(acts[j], u) { StuckRefused(l, fs[j], after, acts[j].c, u, v); }
  }

  lemma TakenNext(l: Layout, fs: seq<Family>, acts: seq<Act>, i: nat, roles: Roles, t: nat, u: nat, v: nat)
    returns (next: nat, after: Roles)
    requires IsFamilyRun(l, fs, acts) && i < |acts| && Settled(l, fs[i], roles)
    requires t < |fs[i].members| && u < |fs[i].members| && t != u
    requires AsksPlace(acts[i], t) && Granted(l, AsProc(fs[i], t), acts[i].c)
    requires v == PageUp(fs[i].members[u].mmapBase) == PageUp(fs[i].members[t].mmapBase)
    ensures next == i + 1 && Settled(l, fs[next], after) && Stuck(l, fs[next], u, v)
  {
    next := i + 1;
    assert ActsAt(l, fs, acts, i);
    assert InPlace(l, fs[i].members[t]);
    var c, granted := acts[i].c, true;
    granted, after := MapExactly(l, fs[i], roles, t, c, fs[next], MmapStart(fs[i].members[t].mmapBase, 0) / PAGE_SIZE, MmapPages(c.len));
    assert InRun(v, v, MmapPages(c.len));
  }
}

/** What loading an ELF image does to a space. */
module ElfLaws {
  import opened Basics
  import opened Align
  import opened Paging
  import opened PageTree
  import opened Spaces
  import opened PageRuns
  import opened TableNeeds
  import RunOps
  import opened Contents
  import opened PhysBytes
  import opened ElfFile
  import opened ElfOps
  import opened UserReach
  import opened RunReach

  /** The segment lies in the user region and has room for its file bytes. */
  predicate Proper(p: Phdr, bias: U64) {
    && p.vaddr + bias + p.memsz <= 0xFFFF_FFFF_F000
    && USER_REGION_BASE <= p.vaddr + bias
    && p.filesz <= p.memsz
  }

  /** The segment begins at a page boundary. */
  predicate Aligned(p: Phdr, bias: U64) {
    (p.vaddr + bias) % PAGE_SIZE == 0
  }

  function FirstPage(p: Phdr, bias: U64): nat {
    (p.vaddr + bias) / PAGE_SIZE
  }

  lemma SegmentBounds(p: Phdr, bias: U64, first: nat, n: nat)
    requires Proper(p, bias) && first == FirstPage(p, bias) && n == SegmentPages(p, bias)
    ensures Vaddr(p, bias) == p.vaddr + bias && RunOps.Pages(SegmentStart(p, bias), first, n) && UserRun(first, n)
    ensures p.vaddr + bias + p.memsz <= (first + n) * PAGE_SIZE && (p.memsz > 0 ==> n > 0)
    ensures Aligned(p, bias) ==> p.vaddr + bias == first * PAGE_SIZE && p.filesz <= n * PAGE_SIZE
  {
    var va := p.vaddr + bias;
    var end := va + p.memsz;
    var last := RoundUp(end);
    PlainSums(p, bias, va, end, first * PAGE_SIZE, last * PAGE_SIZE);
    Distance(first, last, n);
  }

  /** In the user region no sum wraps. */
  lemma PlainSums(p: Phdr, bias: U64, va: nat, end: nat, lo: nat, hi: nat)
    requires Proper(p, bias) && va == p.vaddr + bias && end == va + p.memsz
    requires lo == va / PAGE_SIZE * PAGE_SIZE && hi == AlignUp(end)
    ensures Vaddr(p, bias) == va && SegmentStart(p, bias) == lo && SegmentPages(p, bias) == if lo < hi then (hi - lo) / PAGE_SIZE else 0
  {
    assert Add64(p.vaddr, bias) == va && Add64(va, p.memsz) == end;
  }

  lemma RoundUp(a: nat) returns (q: nat)
    requires a <= 0xFFFF_FFFF_F000
    ensures AlignUp(a) == q * PAGE_SIZE && a <= q * PAGE_SIZE && q <= 0xF_FFFF_FFFF && a / PAGE_SIZE <= q
    ensures forall b: nat :: b <= a ==> b / PAGE_SIZE <= q
    ensures a % PAGE_SIZE != 0 ==> a / PAGE_SIZE < q
  {
    AlignUpIsLeast(a);
    q := AlignUp(a) / PAGE_SIZE;
  }

  lemma Distance(first: nat, last: nat, n: nat)
    requires first <= last && n == if first * PAGE_SIZE < last * PAGE_SIZE then (last * PAGE_SIZE - first * PAGE_SIZE) / PAGE_SIZE else 0
    ensures n == last - first
  {
    assert last * PAGE_SIZE - first * PAGE_SIZE == (last - first) * PAGE_SIZE;
  }

  // ---------------------------------------------------------------------------------------
  // One chunk
  // ---------------------------------------------------------------------------------------

  /** A chunk that fits into the rest of a frame of data changes that frame only. */
  lemma CopyInFrame(mem: seq<Frame>, f: nat, off: nat, target: nat, src: seq<bv8>)
    requires f < |mem| && mem[f].Data? && src != [] && off + |src| <= 4096 && target == f * PAGE_SIZE + off
    ensures CopyBytes(mem, target, src) == mem[f := Data(Splice(mem[f].bytes, off, src))]
  {
    var a, b := CopyBytes(mem, target, src), Splice(mem[f].bytes, off, src);
    forall g | 0 <= g < |mem| ensures Reached(g, target, src) <==> g == f {}
    assert DataAfter(mem[f].bytes, f * PAGE_SIZE, target, src) == b;
  }

  /** Page `i` of the segment as the file defines it: file bytes, then zeros. */
  function SegmentPage(image: seq<bv8>, p: Phdr, i: nat): (b: Bytes)
    requires p.offset + p.filesz <= |image|
    ensures forall j :: 0 <= j < 4096 ==> b[j] == if i * PAGE_SIZE + j < p.filesz then image[p.offset + i * PAGE_SIZE + j] else 0
  {
    seq(4096, j requires 0 <= j < 4096 => if i * PAGE_SIZE + j < p.filesz then image[p.offset + i * PAGE_SIZE + j] else 0)
  }

  /** The view holds the segment's first `n` pages, from page `first` on. */
  ghost predicate Holds(c: View, image: seq<bv8>, p: Phdr, first: nat, n: nat)
    requires p.offset + p.filesz <= |image|
  {
    forall v: nat :: InRun(v, first, n) ==> v in c && c[v] == SegmentPage(image, p, v - first)
  }

  /** From `c` to `c'` the segment was added at pages that were not there, and nothing changed. */
  ghost predicate SegmentAdded(c: View, c': View, image: seq<bv8>, p: Phdr, first: nat, n: nat)
    requires p.offset + p.filesz <= |image|
  {
    && Holds(c', image, p, first, n)
    && (forall v: nat :: v in c' <==> v in c || InRun(v, first, n))
    && (forall v: nat :: v in c ==> !InRun(v, first, n) && c'[v] == c[v])
  }

  /** After the first `k` pages of the segment were copied. */
  ghost predicate CopiedUpTo(c: View, c': View, image: seq<bv8>, p: Phdr, first: nat, k: nat)
    requires p.offset + p.filesz <= |image|
  {
    && c'.Keys == c.Keys
    && (forall v: nat :: v in c && !InRun(v, first, k) ==> c'[v] == c[v])
    && Holds(c', image, p, first, k)
  }

  lemma ChunkIsPage(image: seq<bv8>, p: Phdr, i: nat, src: seq<bv8>, n: nat)
    requires p.offset + p.filesz <= |image| && i * PAGE_SIZE < p.filesz && src == FileBytes(image, p)[i * PAGE_SIZE..]
    requires n == if |src| < PAGE_SIZE then |src| else PAGE_SIZE
    ensures Splice(ZeroPage().bytes, 0, src[..n]) == SegmentPage(image, p, i)
  {
    var a, b := Splice(ZeroPage().bytes, 0, src[..n]), SegmentPage(image, p, i);
    forall j | 0 <= j < 4096 ensures a[j] == b[j] {}
  }

  lemma CopiedNext(c: View, c': View, image: seq<bv8>, p: Phdr, first: nat, k: nat, k': nat, v: nat)
    requires p.offset + p.filesz <= |image| && CopiedUpTo(c, c', image, p, first, k) && v == first + k && v in c && k' == k + 1
    ensures CopiedUpTo(c, c'[v := SegmentPage(image, p, k)], image, p, first, k')
  {
    var c'' := c'[v := SegmentPage(image, p, k)];
    forall w: nat | InRun(w, first, k') ensures w in c'' && c''[w] == SegmentPage(image, p, w - first) {
      assert w == v || InRun(w, first, k);
    }
    forall w: nat | w in c && !InRun(w, first, k') ensures c''[w] == c[w] { assert !InRun(w, first, k); }
    assert c''.Keys == c'.Keys;
  }

  lemma PageFrame(s: Phys, roles: Roles, root: nat, v: nat)
    requires Inv(s, roles) && IsRoot(roles, root) && v in PageMap(s.mem, root)
    ensures var f := PageMap(s.mem, root)[v].frame;
            f < |s.mem| && s.mem[f].Data? && v in ViewOf(s, root) && ViewOf(s, root)[v] == s.mem[f].bytes
  {
    MappedIsPlaced(s, roles, root, v);
  }

  /** No page table has changed. */
  ghost predicate SameTables(m: seq<Frame>, m': seq<Frame>, roles: Roles) {
    |m'| == |m| && forall f :: f in roles && roles[f].depth < 4 && f < |m| ==> m'[f] == m[f]
  }

  /** The view after the copy loop has come to page `k`. */
  ghost predicate CopyState(s: Phys, t: Phys, roles: Roles, root: nat, image: seq<bv8>, p: Phdr, first: nat, k: nat)
    requires p.offset + p.filesz <= |image|
  {
    && Inv(t, roles) && OnlySpace(s, roles, t, roles, root) && SameTables(s.mem, t.mem, roles)
    && CopiedUpTo(ViewOf(s, root), ViewOf(t, root), image, p, first, k)
  }

  ghost predicate ZeroRun(c: View, first: nat, n: nat) {
    forall v: nat :: InRun(v, first, n) ==> v in c && c[v] == ZeroPage().bytes
  }

  lemma CopyWrite(s: Phys, t: Phys, roles: Roles, root: nat, image: seq<bv8>, p: Phdr, first: nat, k: nat, k': nat,
                  v: nat, f: nat)
    requires IsRoot(roles, root) && p.offset + p.filesz <= |image| && CopyState(s, t, roles, root, image, p, first, k)
    requires v == first + k && k' == k + 1 && v in ViewOf(s, root)
    requires v in PageMap(t.mem, root) && f == PageMap(t.mem, root)[v].frame
    ensures f < |t.mem|
    ensures CopyState(s, Phys(t.used, t.mem[f := Data(SegmentPage(image, p, k))]), roles, root, image, p, first, k')
  {
    WriteView(t, roles, root, v, SegmentPage(image, p, k));
    MappedIsPlaced(t, roles, root, v);
    var u := Phys(t.used, t.mem[f := Data(SegmentPage(image, p, k))]);
    OnlySpaceTrans(s, roles, t, roles, u, roles, root);
    CopiedNext(ViewOf(s, root), ViewOf(t, root), image, p, first, k, k', v);
  }

  /** What `vmm_resolve` answers for the beginning of page `v`. */
  lemma ResolvedPage(t: Phys, roles: Roles, root: nat, va: U64, v: nat)
    requires Inv(t, roles) && IsRoot(roles, root) && UserPage(v) && PageOf(va) == v && v in ViewOf(t, root)
    ensures var r := Resolve(t.mem, root, va);
            r.Some? && v in PageMap(t.mem, root) && r.value.0 == PageMap(t.mem, root)[v].frame * PAGE_SIZE + va % PAGE_SIZE
  {
    ViewIsResolve(t, roles, root, va);
    var pa, f := Resolve(t.mem, root, va).value.0, PageMap(t.mem, root)[v].frame;
    assert pa == pa / PAGE_SIZE * PAGE_SIZE + pa % PAGE_SIZE;
  }

  /** The chunk was copied to where the loop puts it. */
  predicate Copied(mem: seq<Frame>, root: nat, va: U64, target: nat, chunk: seq<bv8>, mem': seq<Frame>) {
    Resolve(mem, root, va).Some? ==> target == Resolve(mem, root, va).value.0 + va % PAGE_SIZE && mem' == CopyBytes(mem, target, chunk)
  }

  /** One round of the copy loop gives page `k` of an aligned segment its file bytes. */
  lemma CopyRound(s: Phys, t: Phys, roles: Roles, root: nat, image: seq<bv8>, p: Phdr, first: nat, k: nat, k': nat,
                  v: nat, va: U64, src: seq<bv8>, n: nat, total: nat, target: nat, chunk: seq<bv8>, mem': seq<Frame>)
    requires p.offset + p.filesz <= |image| && IsRoot(roles, root) && CopyState(s, t, roles, root, image, p, first, k)
    requires ZeroRun(ViewOf(s, root), first, total) && k < total && k' == k + 1
    requires v == first + k && UserPage(v) && PageOf(va) == v && va % PAGE_SIZE == 0
    requires k * PAGE_SIZE < p.filesz && src == FileBytes(image, p)[k * PAGE_SIZE..] && n == if |src| < PAGE_SIZE then |src| else PAGE_SIZE
    requires chunk == src[..n] && Copied(t.mem, root, va, target, chunk, mem')
    ensures Resolve(t.mem, root, va).Some? && CopyState(s, Phys(t.used, mem'), roles, root, image, p, first, k')
  {
    assert InRun(v, first, total) && !InRun(v, first, k);
    ResolvedPage(t, roles, root, va, v);
    var f := PageMap(t.mem, root)[v].frame;
    PageFrame(t, roles, root, v);
    ChunkIsPage(image, p, k, src, n);
    CopyInFrame(t.mem, f, 0, target, chunk);
    CopyWrite(s, t, roles, root, image, p, first, k, k', v, f);
  }

  // ---------------------------------------------------------------------------------------
  // The copy loop over an aligned segment
  // ---------------------------------------------------------------------------------------

  predicate CopiesTo(mem: seq<Frame>, root: nat, va: U64, src: seq<bv8>, mem': seq<Frame>, ok: bool) {
    (mem', ok) == CopyLoop(mem, root, va, src)
  }

  lemma CopyUnfold(mem: seq<Frame>, root: nat, va: U64, src: seq<bv8>, mem': seq<Frame>, ok: bool)
    returns (target: nat, n: nat, chunk: seq<bv8>, next: U64, rest: seq<bv8>, mem1: seq<Frame>)
    requires src != [] && CopiesTo(mem, root, va, src, mem', ok)
    ensures n == Chunk(va, |src|) && chunk == src[..n] && next == Add64(va, n) && rest == src[n..]
    ensures Resolve(mem, root, va).None? ==> mem' == mem && !ok
    ensures Copied(mem, root, va, target, chunk, mem1)
    ensures Resolve(mem, root, va).Some? ==> CopiesTo(mem1, root, next, rest, mem', ok)
  {
    var r := Resolve(mem, root, va);
    n := Chunk(va, |src|);
    chunk, next, rest := src[..n], Add64(va, n), src[n..];
    target, mem1 := 0, mem;
    if r.Some? {
      target := r.value.0 + va % PAGE_SIZE;
      mem1 := CopyBytes(mem, target, chunk);
      assert CopyLoop(mem, root, va, src) == CopyRest(mem1, root, next, rest, |src|);
    }
  }

  /** At page `k` of `n`, with the bytes `src` left to copy. */
  predicate CopyAt(image: seq<bv8>, p: Phdr, first: nat, n: nat, k: nat, va: U64, src: seq<bv8>)
    requires p.offset + p.filesz <= |image|
  {
    && k <= n && UserRun(first, n) && p.filesz <= n * PAGE_SIZE
    && (if k * PAGE_SIZE < p.filesz then va == (first + k) * PAGE_SIZE && src == FileBytes(image, p)[k * PAGE_SIZE..] else src == [])
  }

  lemma CopyAtNext(image: seq<bv8>, p: Phdr, first: nat, n: nat, k: nat, va: U64, src: seq<bv8>, c: nat, next: U64,
                   rest: seq<bv8>)
    returns (v: nat, k': nat)
    requires p.offset + p.filesz <= |image| && CopyAt(image, p, first, n, k, va, src) && src != []
    requires c == Chunk(va, |src|) && next == Add64(va, c) && rest == src[c..]
    ensures v == first + k && k' == k + 1 && k < n && UserPage(v) && PageOf(va) == v && va % PAGE_SIZE == 0
    ensures k * PAGE_SIZE < p.filesz && src == FileBytes(image, p)[k * PAGE_SIZE..] && c == if |src| < PAGE_SIZE then |src| else PAGE_SIZE
    ensures CopyAt(image, p, first, n, k', next, rest)
  {
    v, k' := first + k, k + 1;
    assert va % PAGE_SIZE == 0 && va / PAGE_SIZE == v;
    if k' * PAGE_SIZE < p.filesz {
      assert c == PAGE_SIZE;
      assert FileBytes(image, p)[k' * PAGE_SIZE..] == src[c..];
    }
  }

  lemma CopyStep(s: Phys, t: Phys, roles: Roles, root: nat, image: seq<bv8>, p: Phdr, first: nat, n: nat, k: nat,
                 va: U64, src: seq<bv8>, mem': seq<Frame>, ok: bool) returns (u: Phys, k': nat, next: U64, rest: seq<bv8>)
    requires p.offset + p.filesz <= |image| && IsRoot(roles, root)
    requires CopyState(s, t, roles, root, image, p, first, k) && src != []
    requires ZeroRun(ViewOf(s, root), first, n) && CopyAt(image, p, first, n, k, va, src)
    requires CopiesTo(t.mem, root, va, src, mem', ok)
    ensures u.used == t.used && |rest| < |src| && CopyState(s, u, roles, root, image, p, first, k')
    ensures CopyAt(image, p, first, n, k', next, rest) && CopiesTo(u.mem, root, next, rest, mem', ok)
  {
    var target, c, chunk, v, mem1;
    target, c, chunk, next, rest, mem1 := CopyUnfold(t.mem, root, va, src, mem', ok);
    v, k' := CopyAtNext(image, p, first, n, k, va, src, c, next, rest);
    CopyRound(s, t, roles, root, image, p, first, k, k', v, va, src, c, n, target, chunk, mem1);
    u := Phys(t.used, mem1);
  }

  /** Over zeroed pages the copy loop completes - no address it needs is missing - and leaves the segment
      as the file defines it. */
  lemma {:induction false} CopyLaw(s: Phys, t: Phys, roles: Roles, root: nat, image: seq<bv8>, p: Phdr, first: nat,
                                   n: nat, k: nat,
                                   va: U64, src: seq<bv8>, mem': seq<Frame>, ok: bool) returns (last: nat)
    requires p.offset + p.filesz <= |image| && IsRoot(roles, root) && CopyState(s, t, roles, root, image, p, first, k)
    requires ZeroRun(ViewOf(s, root), first, n) && CopyAt(image, p, first, n, k, va, src)
    requires CopiesTo(t.mem, root, va, src, mem', ok)
    ensures ok && last <= n && p.filesz <= last * PAGE_SIZE
    ensures CopyState(s, Phys(t.used, mem'), roles, root, image, p, first, last)
    decreases |src|
  {
    if src == [] {
      last := k;
    } else {
      var u, k', next, rest := CopyStep(s, t, roles, root, image, p, first, n, k, va, src, mem', ok);
      last := CopyLaw(s, u, roles, root, image, p, first, n, k', next, rest, mem', ok);
    }
  }

  // ---------------------------------------------------------------------------------------
  // Aligned segments
  // ---------------------------------------------------------------------------------------

  lemma SameMap(m: seq<Frame>, m': seq<Frame>, roles: Roles, root: nat)
    requires Tree(m, roles) && Tree(m', roles) && SameTables(m, m', roles) && IsRoot(roles, root)
    ensures PageMap(m', root) == PageMap(m, root)
  {
    forall f | f in roles && f < |m| ensures if roles[f].depth < 4 then m'[f] == m[f] else m'[f].Data? { assert FrameOk(m', roles, f); }
    DataWriteKeepsMaps(m, m', roles);
  }

  /** The pages of the segment are for user code to read, to write if the segment is writable and to execute
      if it is executable; all others are as they were. */
  ghost predicate SegmentGranted(m: map<nat, Entry>, m': map<nat, Entry>, p: Phdr, first: nat, n: nat) {
    && (forall v: nat :: InRun(v, first, n) ==> v in m' && Grants(m'[v], p.write, p.exec))
    && (forall v: nat :: v in m && !InRun(v, first, n) ==> v in m' && m'[v] == m[v])
  }

  lemma ExtendGranted(m: map<nat, Entry>, p: Phdr, first: nat, ds: seq<nat>)
    ensures SegmentGranted(m, Extend(m, first, ds, SegmentFlags(p)), p, first, |ds|)
  {
    var m' := Extend(m, first, ds, SegmentFlags(p));
    forall v: nat
      ensures InRun(v, first, |ds|) ==> v in m' && Grants(m'[v], p.write, p.exec)
      ensures v in m && !InRun(v, first, |ds|) ==> v in m' && m'[v] == m[v]
    {
      ExtendAt(m, first, ds, SegmentFlags(p), v);
    }
  }

  /** Pages zeroed and then copied up to the end of the file bytes hold the segment. */
  lemma ZeroThenCopied(c: View, z: View, c': View, image: seq<bv8>, p: Phdr, first: nat, n: nat, k: nat)
    requires p.offset + p.filesz <= |image| && p.filesz <= k * PAGE_SIZE && k <= n
    requires ZeroAdded(c, z, first, n) && CopiedUpTo(z, c', image, p, first, k)
    ensures SegmentAdded(c, c', image, p, first, n)
  {
    forall v: nat | InRun(v, first, n) ensures v in c' && c'[v] == SegmentPage(image, p, v - first) {
      if !InRun(v, first, k) {
        var b := SegmentPage(image, p, v - first);
        assert forall j :: 0 <= j < 4096 ==> b[j] == ZeroPage().bytes[j];
      }
    }
    forall v: nat | v in c ensures v in c' && c'[v] == c[v] { assert v in z && !InRun(v, first, k); }
  }

  /** The space is a proper one still, and only it has changed. */
  ghost predicate Kept(s: Phys, roles: Roles, u: Phys, after: Roles, root: nat) {
    Inv(u, after) && IsRoot(after, root) && OnlySpace(s, roles, u, after, root)
  }

  lemma KeptTrans(s: Phys, r: Roles, t: Phys, r': Roles, u: Phys, r'': Roles, root: nat)
    requires Kept(s, r, t, r', root) && Kept(t, r', u, r'', root)
    ensures Kept(s, r, u, r'', root)
  {
    OnlySpaceTrans(s, r, t, r', u, r'', root);
  }

  predicate LoadsTo(s: Phys, root: nat, image: seq<bv8>, p: Phdr, bias: U64, u: Phys, ok: bool)
    requires p.offset + p.filesz < TWO64
  {
    (u, ok) == LoadSegment(s, root, image, p, bias)
  }

  lemma SegmentSteps(s: Phys, root: nat, image: seq<bv8>, p: Phdr, bias: U64, u: Phys, ok: bool)
    returns (start: U64, n: nat, t: Phys, k: nat, mem': seq<Frame>, copied: bool)
    requires p.offset + p.filesz < TWO64 && LoadsTo(s, root, image, p, bias, u, ok)
    ensures start == SegmentStart(p, bias) && n == SegmentPages(p, bias)
    ensures p.offset + p.filesz > |image| ==> u == s && !ok
    ensures p.offset + p.filesz <= |image| ==>
              && RunOps.MapsTo(s, root, start, n, SegmentFlags(p), t, k)
              && (k != n ==> u == t && !ok)
              && (k == n ==> CopiesTo(t.mem, root, Vaddr(p, bias), FileBytes(image, p), mem', copied) && u == Phys(t.used, mem') && ok == copied)
  {
    start, n := SegmentStart(p, bias), SegmentPages(p, bias);
    var m := RunOps.MapRun(s, root, start, n, SegmentFlags(p));
    t, k, mem', copied := m.0, m.1, m.0.mem, false;
    if p.offset + p.filesz <= |image| {
      var c := CopyLoop(t.mem, root, Vaddr(p, bias), FileBytes(image, p));
      mem', copied := c.0, c.1;
    }
  }

  /** An aligned segment is loaded exactly if its bytes are in the file, its pages are vacant, and there
      are frames for them and their missing tables. The view then gains exactly the segment's pages, as
      the file defines them. In any case only this space changes. */
  lemma SegmentLaw(s: Phys, roles: Roles, root: nat, image: seq<bv8>, p: Phdr, bias: U64, first: nat, n: nat, u: Phys, ok: bool)
    returns (after: Roles)
    requires Inv(s, roles) && IsRoot(roles, root) && Proper(p, bias) && Aligned(p, bias) && p.offset + p.filesz < TWO64
    requires first == FirstPage(p, bias) && n == SegmentPages(p, bias) && LoadsTo(s, root, image, p, bias, u, ok)
    ensures Kept(s, roles, u, after, root)
    ensures ok <==> p.offset + p.filesz <= |image| && Enough(s, root, first, n)
    ensures ok ==> SegmentAdded(ViewOf(s, root), ViewOf(u, root), image, p, first, n)
    ensures ok ==> SegmentGranted(PageMap(s.mem, root), PageMap(u.mem, root), p, first, n)
    ensures AllOpen(s.mem, root) ==> AllOpen(u.mem, root)
  {
    after := roles;
    var start, n', t, k, mem', copied := SegmentSteps(s, root, image, p, bias, u, ok);
    SegmentBounds(p, bias, first, n);
    if p.offset + p.filesz <= |image| {
      var ds;
      ds, after := RunOps.MapRunLaw(s, roles, root, start, first, n, SegmentFlags(p), t, k);
      if AllOpen(s.mem, root) { MapRunOpen(s, roles, root, start, first, n, SegmentFlags(p), t, k); }
      if k == n {
        CopiedSegment(s, roles, root, image, p, bias, first, n, t, after, ds, mem', copied);
        ExtendGranted(PageMap(s.mem, root), p, first, ds);
        if AllOpen(t.mem, root) {
          DataInner(t.mem, after, u.mem, root);
          SameOpen(t.mem, u.mem, root);
        }
      }
    }
  }

  lemma CopiedSegment(s: Phys, roles: Roles, root: nat, image: seq<bv8>, p: Phdr, bias: U64, first: nat, n: nat,
                      t: Phys, after: Roles, ds: seq<nat>, mem': seq<Frame>, ok: bool)
    requires Inv(s, roles) && IsRoot(roles, root) && Proper(p, bias) && Aligned(p, bias) && p.offset + p.filesz <= |image|
    requires first == FirstPage(p, bias) && n == SegmentPages(p, bias) && |ds| == n
    requires Mapped(s, roles, t, after, root, first, ds, SegmentFlags(p))
    requires CopiesTo(t.mem, root, Vaddr(p, bias), FileBytes(image, p), mem', ok)
    ensures ok && Kept(s, roles, Phys(t.used, mem'), after, root)
    ensures SegmentAdded(ViewOf(s, root), ViewOf(Phys(t.used, mem'), root), image, p, first, n)
    ensures SameTables(t.mem, mem', after) && PageMap(mem', root) == PageMap(t.mem, root)
  {
    SegmentBounds(p, bias, first, n);
    MappedView(s, roles, t, after, root, first, ds, SegmentFlags(p));
    var src := FileBytes(image, p);
    assert src[0..] == src;
    var last := CopyLaw(t, t, after, root, image, p, first, n, 0, Vaddr(p, bias), src, mem', ok);
    var u := Phys(t.used, mem');
    OnlySpaceTrans(s, roles, t, after, u, after, root);
    ZeroThenCopied(ViewOf(s, root), ViewOf(t, root), ViewOf(u, root), image, p, first, n, last);
    SameMap(t.mem, mem', after, root);
  }
}

/** Whole images: every loadable segment, and the break behind them. */
module ElfImages {
  import opened Basics
  import opened Align
  import opened Paging
  import opened PageTree
  import opened PageRuns
  import opened PageNeeds
  import RunOps
  import opened Contents
  import opened ElfFile
  import opened ElfLayout
  import opened ElfOps
  import opened ElfLaws
  import opened UserReach

  /** The loadable segments begin at page boundaries and lie in the user region. */
  predicate ProperHeaders(ph: seq<Phdr>, bias: U64) {
    Plain(ph) && forall i :: 0 <= i < |ph| && ph[i].kind == PT_LOAD ==> Proper(ph[i], bias) && Aligned(ph[i], bias)
  }

  /** Page `v` belongs to loadable segment `i`. */
  predicate InSegment(ph: seq<Phdr>, bias: U64, i: nat, v: nat)
    requires i < |ph|
  {
    ph[i].kind == PT_LOAD && InRun(v, FirstPage(ph[i], bias), SegmentPages(ph[i], bias))
  }

  /** The first `n` program headers are in place. */
  ghost predicate AllHeld(c: View, image: seq<bv8>, ph: seq<Phdr>, bias: U64, n: nat)
    requires n <= |ph|
  {
    forall i :: 0 <= i < n && ph[i].kind == PT_LOAD ==>
      ph[i].offset + ph[i].filesz <= |image| && Holds(c, image, ph[i], FirstPage(ph[i], bias), SegmentPages(ph[i], bias))
  }

  /** The pages of the first `n` program headers have the permissions that the headers ask for. */
  ghost predicate AllGranted(m: map<nat, Entry>, ph: seq<Phdr>, bias: U64, n: nat)
    requires n <= |ph|
  {
    forall i, v: nat :: 0 <= i < n && InSegment(ph, bias, i, v) ==> v in m && Grants(m[v], ph[i].write, ph[i].exec)
  }

  /** The pages are those there were and those of the first `n` segments. */
  ghost predicate OnlySegments(c0: View, c: View, ph: seq<Phdr>, bias: U64, n: nat)
    requires n <= |ph|
  {
    && (forall v: nat :: v in c0 ==> v in c && c[v] == c0[v])
    && (forall v: nat :: v in c && v !in c0 ==> exists i :: 0 <= i < n && InSegment(ph, bias, i, v))
  }

  lemma HeldStill(c: View, c': View, image: seq<bv8>, ph: seq<Phdr>, bias: U64, n: nat, m: nat)
    requires n < |ph| && m == n + 1 && ph[n].kind == PT_LOAD && ph[n].offset + ph[n].filesz <= |image|
    requires AllHeld(c, image, ph, bias, n)
    requires SegmentAdded(c, c', image, ph[n], FirstPage(ph[n], bias), SegmentPages(ph[n], bias))
    ensures AllHeld(c', image, ph, bias, m)
  {
    forall i | 0 <= i < n && ph[i].kind == PT_LOAD ensures Holds(c', image, ph[i], FirstPage(ph[i], bias), SegmentPages(ph[i], bias)) {
      HoldsStill(c, c', image, ph[i], FirstPage(ph[i], bias), SegmentPages(ph[i], bias),
                 ph[n], FirstPage(ph[n], bias), SegmentPages(ph[n], bias));
    }
  }

  lemma GrantedStill(m: map<nat, Entry>, m': map<nat, Entry>, ph: seq<Phdr>, bias: U64, n: nat, k: nat)
    requires n < |ph| && k == n + 1 && ph[n].kind == PT_LOAD && AllGranted(m, ph, bias, n)
    requires SegmentGranted(m, m', ph[n], FirstPage(ph[n], bias), SegmentPages(ph[n], bias))
    requires forall v: nat :: v in m ==> !InRun(v, FirstPage(ph[n], bias), SegmentPages(ph[n], bias))
    ensures AllGranted(m', ph, bias, k)
  {
  }

  lemma HoldsStill(c: View, c': View, image: seq<bv8>, p: Phdr, first: nat, n: nat, q: Phdr, first': nat, n': nat)
    requires p.offset + p.filesz <= |image| && q.offset + q.filesz <= |image|
    requires Holds(c, image, p, first, n) && SegmentAdded(c, c', image, q, first', n')
    ensures Holds(c', image, p, first, n)
  {
  }

  lemma OnlyStill(c0: View, c: View, c': View, image: seq<bv8>, ph: seq<Phdr>, bias: U64, n: nat, m: nat)
    requires n < |ph| && m == n + 1 && ph[n].kind == PT_LOAD && ph[n].offset + ph[n].filesz <= |image|
    requires OnlySegments(c0, c, ph, bias, n)
    requires SegmentAdded(c, c', image, ph[n], FirstPage(ph[n], bias), SegmentPages(ph[n], bias))
    ensures OnlySegments(c0, c', ph, bias, m)
  {
    forall v: nat | v in c' && v !in c0 ensures exists i :: 0 <= i < m && InSegment(ph, bias, i, v) {
      if v in c {
        var i :| 0 <= i < n && InSegment(ph, bias, i, v);
        assert i < m;
      } else {
        assert InSegment(ph, bias, n, v);
      }
    }
  }

  /** The address of the end of segment `i`. */
  function SegmentEnd(ph: seq<Phdr>, bias: U64, i: nat): nat
    requires i < |ph|
  {
    ph[i].vaddr + bias + ph[i].memsz
  }

  /** `brk` is a page boundary at or above every one of the first `n` segment ends, and the end of
      one of them rounded up - or 0 when there is none. */
  ghost predicate BreakAfter(ph: seq<Phdr>, bias: U64, n: nat, brk: nat)
    requires n <= |ph|
  {
    && brk % PAGE_SIZE == 0
    && (forall i :: 0 <= i < n && ph[i].kind == PT_LOAD ==> SegmentEnd(ph, bias, i) <= brk)
    && (brk == 0 || exists i :: 0 <= i < n && ph[i].kind == PT_LOAD && brk < SegmentEnd(ph, bias, i) + PAGE_SIZE)
  }

  /** Such a break is the least page boundary at or above every segment end. */
  lemma BreakIsLeast(ph: seq<Phdr>, bias: U64, brk: nat, b: nat)
    requires BreakAfter(ph, bias, |ph|, brk) && b % PAGE_SIZE == 0
    requires forall i :: 0 <= i < |ph| && ph[i].kind == PT_LOAD ==> SegmentEnd(ph, bias, i) <= b
    ensures brk <= b
  {
  }

  lemma BumpIs(p: Phdr, bias: U64, brk: U64, end: nat, b: nat)
    requires Proper(p, bias) && end == p.vaddr + bias + p.memsz && b == BumpBreak(p, bias, brk) && brk % PAGE_SIZE == 0
    ensures b % PAGE_SIZE == 0 && brk <= b && end <= b && (b == brk || b < end + PAGE_SIZE)
  {
    AlignUpIsLeast(end);
  }

  lemma BreakNext(ph: seq<Phdr>, bias: U64, i: nat, m: nat, brk: U64, b: nat)
    requires i < |ph| && m == i + 1 && ph[i].kind == PT_LOAD && Proper(ph[i], bias) && BreakAfter(ph, bias, i, brk)
    requires b == BumpBreak(ph[i], bias, brk)
    ensures BreakAfter(ph, bias, m, b)
  {
    BumpIs(ph[i], bias, brk, SegmentEnd(ph, bias, i), b);
    if b == brk && brk != 0 {
      var j :| 0 <= j < i && ph[j].kind == PT_LOAD && brk < SegmentEnd(ph, bias, j) + PAGE_SIZE;
      assert j < m;
    }
  }

  lemma ViewKeys(t: Phys, root: nat)
    ensures forall v: nat :: v in ViewOf(t, root) <==> v in PageMap(t.mem, root)
  {
  }

  /** The loop over the program headers has come to header `n`. */
  ghost predicate LoadedUpTo(s: Phys, roles: Roles, t: Phys, after: Roles, root: nat,
                             image: seq<bv8>, ph: seq<Phdr>, bias: U64, n: nat, brk: nat)
    requires n <= |ph|
  {
    && Kept(s, roles, t, after, root)
    && AllHeld(ViewOf(t, root), image, ph, bias, n) && OnlySegments(ViewOf(s, root), ViewOf(t, root), ph, bias, n)
    && AllGranted(PageMap(t.mem, root), ph, bias, n) && (AllOpen(s.mem, root) ==> AllOpen(t.mem, root))
    && BreakAfter(ph, bias, n, brk)
  }

  predicate LoadsAll(s: Phys, root: nat, image: seq<bv8>, ph: seq<Phdr>, bias: U64, i: nat, brk: U64, u: Phys, ok: bool, end: U64)
    requires i <= |ph| && Plain(ph)
  {
    (u, ok, end) == LoadAll(s, root, image, ph, bias, i, brk)
  }

  lemma LoadUnfold(s: Phys, root: nat, image: seq<bv8>, ph: seq<Phdr>, bias: U64, i: nat, brk: U64, u: Phys, ok: bool, end: U64)
    returns (m: nat, t: Phys, done: bool, brk': U64)
    requires i < |ph| && Plain(ph) && LoadsAll(s, root, image, ph, bias, i, brk, u, ok, end)
    ensures m == i + 1
    ensures ph[i].kind != PT_LOAD ==> LoadsAll(s, root, image, ph, bias, m, brk, u, ok, end)
    ensures ph[i].kind == PT_LOAD ==> LoadsTo(s, root, image, ph[i], bias, t, done) && brk' == BumpBreak(ph[i], bias, brk)
    ensures ph[i].kind == PT_LOAD && done ==> LoadsAll(t, root, image, ph, bias, m, brk', u, ok, end)
    ensures ph[i].kind == PT_LOAD && !done ==> u == t && !ok && end == 0
  {
    m, t, done, brk' := i + 1, s, true, brk;
    if ph[i].kind == PT_LOAD {
      var r := LoadSegment(s, root, image, ph[i], bias);
      t, done, brk' := r.0, r.1, BumpBreak(ph[i], bias, brk);
      assert LoadAll(s, root, image, ph, bias, i, brk) == LoadMore(r, root, image, ph, bias, m, brk');
    } else {
      assert LoadAll(s, root, image, ph, bias, i, brk) == LoadMore((s, true), root, image, ph, bias, m, brk);
    }
  }

  /** Header `n` added to those loaded. */
  lemma LoadedNext(s: Phys, roles: Roles, t: Phys, r: Roles, u: Phys, r': Roles, root: nat,
                   image: seq<bv8>, ph: seq<Phdr>, bias: U64, n: nat, m: nat, brk: U64, brk': U64)
    requires n < |ph| && m == n + 1 && ph[n].kind == PT_LOAD && ph[n].offset + ph[n].filesz <= |image| && Proper(ph[n], bias)
    requires LoadedUpTo(s, roles, t, r, root, image, ph, bias, n, brk) && brk' == BumpBreak(ph[n], bias, brk)
    requires Kept(t, r, u, r', root)
    requires SegmentAdded(ViewOf(t, root), ViewOf(u, root), image, ph[n], FirstPage(ph[n], bias), SegmentPages(ph[n], bias))
    requires SegmentGranted(PageMap(t.mem, root), PageMap(u.mem, root), ph[n], FirstPage(ph[n], bias), SegmentPages(ph[n], bias))
    requires AllOpen(t.mem, root) ==> AllOpen(u.mem, root)
    ensures LoadedUpTo(s, roles, u, r', root, image, ph, bias, m, brk')
  {
    ViewKeys(t, root);
    GrantedStill(PageMap(t.mem, root), PageMap(u.mem, root), ph, bias, n, m);
    KeptTrans(s, roles, t, r, u, r', root);
    HeldStill(ViewOf(t, root), ViewOf(u, root), image, ph, bias, n, m);
    OnlyStill(ViewOf(s, root), ViewOf(t, root), ViewOf(u, root), image, ph, bias, n, m);
    BreakNext(ph, bias, n, m, brk, brk');
  }

  lemma LoadedSkip(s: Phys, roles: Roles, t: Phys, r: Roles, root: nat, image: seq<bv8>, ph: seq<Phdr>, bias: U64,
                   n: nat, m: nat, brk: nat)
    requires n < |ph| && m == n + 1 && ph[n].kind != PT_LOAD && LoadedUpTo(s, roles, t, r, root, image, ph, bias, n, brk)
    ensures LoadedUpTo(s, roles, t, r, root, image, ph, bias, m, brk)
  {
    SkipHeld(ViewOf(t, root), PageMap(t.mem, root), image, ph, bias, n, m);
    SkipOnly(ViewOf(s, root), ViewOf(t, root), ph, bias, n, m, brk);
  }

  lemma SkipHeld(c: View, pages: map<nat, Entry>, image: seq<bv8>, ph: seq<Phdr>, bias: U64, n: nat, m: nat)
    requires n < |ph| && m == n + 1 && ph[n].kind != PT_LOAD
    requires AllHeld(c, image, ph, bias, n) && AllGranted(pages, ph, bias, n)
    ensures AllHeld(c, image, ph, bias, m) && AllGranted(pages, ph, bias, m)
  {
  }

  lemma SkipOnly(c0: View, c: View, ph: seq<Phdr>, bias: U64, n: nat, m: nat, brk: nat)
    requires n < |ph| && m == n + 1 && ph[n].kind != PT_LOAD
    requires OnlySegments(c0, c, ph, bias, n) && BreakAfter(ph, bias, n, brk)
    ensures OnlySegments(c0, c, ph, bias, m) && BreakAfter(ph, bias, m, brk)
  {
    forall v: nat | v in c && v !in c0 ensures exists i :: 0 <= i < m && InSegment(ph, bias, i, v) {
      var i :| 0 <= i < n && InSegment(ph, bias, i, v);
      assert i < m;
    }
    if brk != 0 {
      var i :| 0 <= i < n && ph[i].kind == PT_LOAD && brk < SegmentEnd(ph, bias, i) + PAGE_SIZE;
      assert i < m;
    }
  }

  lemma {:induction false} LoadAllLaw(s: Phys, roles: Roles, t: Phys, r: Roles, root: nat, image: seq<bv8>,
                                      ph: seq<Phdr>, bias: U64,
                                      i: nat, brk: U64, u: Phys, ok: bool, end: U64) returns (after: Roles)
    requires i <= |ph| && ProperHeaders(ph, bias) && LoadedUpTo(s, roles, t, r, root, image, ph, bias, i, brk)
    requires LoadsAll(t, root, image, ph, bias, i, brk, u, ok, end)
    ensures Kept(s, roles, u, after, root)
    ensures ok ==> LoadedUpTo(s, roles, u, after, root, image, ph, bias, |ph|, end)
    ensures AllOpen(s.mem, root) ==> AllOpen(u.mem, root)
    decreases |ph| - i
  {
    after := r;
    if i < |ph| {
      var m, t', done, brk' := LoadUnfold(t, root, image, ph, bias, i, brk, u, ok, end);
      if ph[i].kind != PT_LOAD {
        LoadedSkip(s, roles, t, r, root, image, ph, bias, i, m, brk);
        after := LoadAllLaw(s, roles, t, r, root, image, ph, bias, m, brk, u, ok, end);
      } else {
        var r' := SegmentLaw(t, r, root, image, ph[i], bias, FirstPage(ph[i], bias), SegmentPages(ph[i], bias), t', done);
        if done {
          LoadedNext(s, roles, t, r, t', r', root, image, ph, bias, i, m, brk, brk');
          after := LoadAllLaw(s, roles, t', r', root, image, ph, bias, m, brk', u, ok, end);
        } else {
          after := r';
          KeptTrans(s, roles, t, r, t', r', root);
        }
      }
    }
  }

  // ---------------------------------------------------------------------------------------
  // When an image can be loaded
  // ---------------------------------------------------------------------------------------

  /** The pages of the loadable segments from header `i` on, in the order they are mapped. */
  function ImagePages(ph: seq<Phdr>, bias: U64, i: nat): seq<nat>
    requires i <= |ph|
    decreases |ph| - i
  {
    if i == |ph| then []
    else if ph[i].kind != PT_LOAD then ImagePages(ph, bias, i + 1)
    else RunPages(FirstPage(ph[i], bias), SegmentPages(ph[i], bias)) + ImagePages(ph, bias, i + 1)
  }

  /** The bytes of the loadable segments from header `i` on are in the file. */
  predicate InFile(ph: seq<Phdr>, image: seq<bv8>, i: nat) {
    forall j :: i <= j < |ph| && ph[j].kind == PT_LOAD ==> ph[j].offset + ph[j].filesz <= |image|
  }

  lemma {:induction false} ImagePagesUser(ph: seq<Phdr>, bias: U64, i: nat)
    requires i <= |ph| && ProperHeaders(ph, bias)
    ensures AllUser(ImagePages(ph, bias, i))
    decreases |ph| - i
  {
    if i < |ph| {
      ImagePagesUser(ph, bias, i + 1);
      if ph[i].kind == PT_LOAD {
        var first, n, rest := FirstPage(ph[i], bias), SegmentPages(ph[i], bias), ImagePages(ph, bias, i + 1);
        SegmentBounds(ph[i], bias, first, n);
        forall k | 0 <= k < n + |rest| ensures UserPage((RunPages(first, n) + rest)[k]) {
          if k >= n { assert (RunPages(first, n) + rest)[k] == rest[k - n]; }
        }
      }
    }
  }

  /** A write to the pages of a space changes nothing of what other pages of it need. */
  lemma WrittenNeeds(t: Phys, u: Phys, roles: Roles, root: nat, ps: seq<nat>)
    requires Inv(t, roles) && Inv(u, roles) && IsRoot(roles, root) && u.used == t.used && AllUser(ps)
    requires PageMap(u.mem, root).Keys == PageMap(t.mem, root).Keys
    ensures EnoughPages(u, root, ps) <==> EnoughPages(t, root, ps)
  {
    NeedPagesSame(t.mem, u.mem, roles, root, ps);
  }

  lemma SameKeys(s: Phys, t: Phys, u: Phys, root: nat, image: seq<bv8>, p: Phdr, first: nat, n: nat, ds: seq<nat>, flags: Flags)
    requires p.offset + p.filesz <= |image| && SegmentAdded(ViewOf(s, root), ViewOf(u, root), image, p, first, n) && |ds| == n
    requires PageMap(t.mem, root) == Extend(PageMap(s.mem, root), first, ds, flags)
    ensures PageMap(u.mem, root).Keys == PageMap(t.mem, root).Keys
  {
    forall v: nat ensures v in PageMap(u.mem, root) <==> v in PageMap(t.mem, root) {
      ExtendAt(PageMap(s.mem, root), first, ds, flags, v);
      assert v in ViewOf(u, root) <==> v in ViewOf(s, root) || InRun(v, first, n);
    }
  }

  /** A segment that is loaded takes what it needs away from what the pages after it need; one that is in
      the file and is not loaded was not to be had. */
  lemma SegmentNeeds(s: Phys, roles: Roles, root: nat, image: seq<bv8>, p: Phdr, bias: U64, first: nat, n: nat,
                     u: Phys, ok: bool, ps: seq<nat>)
    requires Inv(s, roles) && IsRoot(roles, root) && Proper(p, bias)
    requires Aligned(p, bias) && p.offset + p.filesz < TWO64 && AllUser(ps)
    requires first == FirstPage(p, bias) && n == SegmentPages(p, bias) && LoadsTo(s, root, image, p, bias, u, ok)
    ensures ok ==> (EnoughPages(s, root, RunPages(first, n) + ps) <==> EnoughPages(u, root, ps))
    ensures !ok && p.offset + p.filesz <= |image| ==> !EnoughPages(s, root, RunPages(first, n) + ps)
  {
    var start, n', t, k, mem', copied := SegmentSteps(s, root, image, p, bias, u, ok);
    if p.offset + p.filesz <= |image| {
      SegmentBounds(p, bias, first, n);
      MapRunPagesOf(s, roles, root, image, p, bias, first, n, start, t, k, mem', copied, u, ok, ps);
    }
  }

  lemma MapRunPagesOf(s: Phys, roles: Roles, root: nat, image: seq<bv8>, p: Phdr, bias: U64, first: nat, n: nat, start: U64,
                      t: Phys, k: nat, mem': seq<Frame>, copied: bool, u: Phys, ok: bool, ps: seq<nat>)
    requires Inv(s, roles) && IsRoot(roles, root) && Proper(p, bias)
    requires Aligned(p, bias) && p.offset + p.filesz <= |image| && AllUser(ps)
    requires first == FirstPage(p, bias) && n == SegmentPages(p, bias) && RunOps.Pages(start, first, n)
    requires RunOps.MapsTo(s, root, start, n, SegmentFlags(p), t, k) && (k != n ==> u == t && !ok)
    requires k == n ==> CopiesTo(t.mem, root, Vaddr(p, bias), FileBytes(image, p), mem', copied) && u == Phys(t.used, mem') && ok == copied
    ensures ok ==> (EnoughPages(s, root, RunPages(first, n) + ps) <==> EnoughPages(u, root, ps))
    ensures !ok ==> !EnoughPages(s, root, RunPages(first, n) + ps)
  {
    MapRunPages(s, roles, root, start, first, n, SegmentFlags(p), t, k, ps);
    if k == n {
      var ds, after := RunOps.MapRunLaw(s, roles, root, start, first, n, SegmentFlags(p), t, k);
      CopiedSegment(s, roles, root, image, p, bias, first, n, t, after, ds, mem', copied);
      SameKeys(s, t, u, root, image, p, first, n, ds, SegmentFlags(p));
      WrittenNeeds(t, u, after, root, ps);
    }
  }

  /** The headers from the `i`th on are loaded exactly if their bytes are in the file, their pages are all
      different and vacant, and there are frames for the pages and for the tables they miss. */
  lemma {:induction false} LoadAllExact(s: Phys, roles: Roles, root: nat, image: seq<bv8>, ph: seq<Phdr>, bias: U64,
                                        i: nat, brk: U64, u: Phys, ok: bool, end: U64)
    requires Inv(s, roles) && IsRoot(roles, root) && i <= |ph| && ProperHeaders(ph, bias)
    requires LoadsAll(s, root, image, ph, bias, i, brk, u, ok, end)
    ensures ok <==> InFile(ph, image, i) && EnoughPages(s, root, ImagePages(ph, bias, i))
    decreases |ph| - i
  {
    if i == |ph| {
      PagesNone(s, root);
    } else {
      var m, t, done, brk' := LoadUnfold(s, root, image, ph, bias, i, brk, u, ok, end);
      if ph[i].kind != PT_LOAD {
        LoadAllExact(s, roles, root, image, ph, bias, m, brk, u, ok, end);
      } else {
        ImagePagesUser(ph, bias, m);
        SegmentNeeds(s, roles, root, image, ph[i], bias, FirstPage(ph[i], bias), SegmentPages(ph[i], bias), t, done, ImagePages(ph, bias, m));
        if done {
          var after := SegmentLaw(s, roles, root, image, ph[i], bias, FirstPage(ph[i], bias), SegmentPages(ph[i], bias), t, done);
          LoadAllExact(t, after, root, image, ph, bias, m, brk', u, ok, end);
        }
      }
    }
  }

  /** The file is one the loader can make sense of: nothing wraps, and the segments are proper. */
  predicate ProperImage(image: seq<bv8>) {
    NoWrap(image) && (Accepted(image) ==> ProperHeaders(Headers(image), LoadBias(ReadEhdr(image))))
  }

  /** The image's headers are accepted, its segments are in the file, their pages are all different and
      vacant, and there are frames for them and for the tables they miss. */
  ghost predicate Loadable(s: Phys, root: nat, image: seq<bv8>)
    requires NoWrap(image)
  {
    Accepted(image) && InFile(Headers(image), image, 0) && EnoughPages(s, root, ImagePages(Headers(image), LoadBias(ReadEhdr(image)), 0))
  }

  /** Every page of a loadable segment may be read, may be written exactly if bit 1 of the first flag byte of
      its header in the file is set, and executed exactly if bit 0 is. */
  ghost predicate GrantedByFile(m: map<nat, Entry>, image: seq<bv8>)
    requires NoWrap(image) && Accepted(image)
  {
    forall i, v: nat :: 0 <= i < |Headers(image)| && InSegment(Headers(image), LoadBias(ReadEhdr(image)), i, v) ==>
      var at := Number(image[32..40]) + 56 * i + 4;
      v in m && at < |image| && Grants(m[v], image[at] as nat / 2 % 2 == 1, image[at] as nat % 2 == 1)
  }

  lemma GrantedBits(m: map<nat, Entry>, image: seq<bv8>)
    requires NoWrap(image) && Accepted(image) && AllGranted(m, Headers(image), LoadBias(ReadEhdr(image)), |Headers(image)|)
    ensures GrantedByFile(m, image)
  {
    var ph, bias := Headers(image), LoadBias(ReadEhdr(image));
    forall i, v: nat | 0 <= i < |ph| && InSegment(ph, bias, i, v)
      ensures var at := Number(image[32..40]) + 56 * i + 4;
              v in m && at < |image| && Grants(m[v], image[at] as nat / 2 % 2 == 1, image[at] as nat % 2 == 1)
    {
      GrantedBit(m[v], image, i, Number(image[32..40]) + 56 * i);
    }
  }

  lemma GrantedBit(e: Entry, image: seq<bv8>, i: nat, at: nat)
    requires NoWrap(image) && Accepted(image) && i < |Headers(image)| && at == Number(image[32..40]) + 56 * i
    requires Grants(e, Headers(image)[i].write, Headers(image)[i].exec)
    ensures at + PHDR_SIZE <= |image| && Grants(e, image[at + 4] as nat / 2 % 2 == 1, image[at + 4] as nat % 2 == 1)
  {
    EhdrReads(image);
    HeaderBits(image, i, at);
  }

  predicate HasBits(p: Phdr, b: bv8) {
    p.write == (b as nat / 2 % 2 == 1) && p.exec == (b as nat % 2 == 1)
  }

  lemma HeaderBits(image: seq<bv8>, i: nat, at: nat)
    requires NoWrap(image) && Accepted(image) && i < |Headers(image)| && at == ReadEhdr(image).phoff + i * PHDR_SIZE
    ensures at + PHDR_SIZE <= |image| && HasBits(Headers(image)[i], image[at + 4])
  {
    HeadersInFile(ReadEhdr(image), |image|);
    FlagBits(image, at);
  }

  /** `elf64_load_image` up to relocation succeeds exactly if the image is loadable. Whatever happens, only
      the target space changes, and it stays a proper space. A success leaves every loadable segment as the
      file defines it, adds no other page, and reports the break behind the last of them; the pages have the
      permissions that the file asks for, and user code reaches them if it did the others. */
  lemma LoadLaw(s: Phys, roles: Roles, root: nat, image: seq<bv8>, u: Phys, r: Option<(U64, U64)>) returns (after: Roles)
    requires Inv(s, roles) && IsRoot(roles, root) && ProperImage(image) && (u, r) == LoadImage(s, root, image)
    ensures Kept(s, roles, u, after, root)
    ensures r.Some? <==> Loadable(s, root, image)
    ensures r.Some? ==> Accepted(image) && var eh := ReadEhdr(image);
                        && r.value.0 == Add64(eh.entry, LoadBias(eh))
                        && LoadedUpTo(s, roles, u, after, root, image, Headers(image), LoadBias(eh), |Headers(image)|, r.value.1)
                        && GrantedByFile(PageMap(u.mem, root), image)
    ensures AllOpen(s.mem, root) ==> AllOpen(u.mem, root)
  {
    after := roles;
    if Accepted(image) {
      var bias, ph := LoadBias(ReadEhdr(image)), Headers(image);
      var q := LoadAll(s, root, image, ph, bias, 0, 0);
      after := LoadAllLaw(s, roles, s, roles, root, image, ph, bias, 0, 0, q.0, q.1, q.2);
      LoadAllExact(s, roles, root, image, ph, bias, 0, 0, q.0, q.1, q.2);
      if q.1 { GrantedBits(PageMap(u.mem, root), image); }
    }
  }

  /** What a loaded byte reads as through `vmm_resolve`: below the file size the file's byte, from
      there to the memory size zero. */
  lemma LoadedByte(u: Phys, after: Roles, root: nat, image: seq<bv8>, p: Phdr, bias: U64, j: nat, va: nat,
                   r: Option<(nat, Flags)>)
    requires Proper(p, bias) && Aligned(p, bias) && p.offset + p.filesz <= |image| && j < p.memsz && va == p.vaddr + bias + j
    requires Inv(u, after) && IsRoot(after, root) && Holds(ViewOf(u, root), image, p, FirstPage(p, bias), SegmentPages(p, bias))
    requires r == Resolve(u.mem, root, va)
    ensures r.Some? && var b := FrameBytes(u.mem, r.value.0 / PAGE_SIZE);
            |b| == PAGE_SIZE && b[r.value.0 % PAGE_SIZE] == if j < p.filesz then image[p.offset + j] else 0
  {
    ByteAddress(p, bias, j, va);
    HeldByte(ViewOf(u, root), image, p, FirstPage(p, bias), SegmentPages(p, bias), PageOf(va), va % PAGE_SIZE, j);
    ViewIsResolve(u, after, root, va);
  }

  lemma HeldByte(c: View, image: seq<bv8>, p: Phdr, first: nat, n: nat, v: nat, off: nat, j: nat)
    requires p.offset + p.filesz <= |image| && Holds(c, image, p, first, n)
    requires v == first + j / PAGE_SIZE && off == j % PAGE_SIZE && j / PAGE_SIZE < n
    ensures v in c && |c[v]| == PAGE_SIZE && c[v][off] == if j < p.filesz then image[p.offset + j] else 0
  {
    assert InRun(v, first, n);
    assert j / PAGE_SIZE * PAGE_SIZE + off == j;
  }

  lemma ByteAddress(p: Phdr, bias: U64, j: nat, va: nat)
    requires Proper(p, bias) && Aligned(p, bias) && j < p.memsz && va == p.vaddr + bias + j
    ensures va < TWO64 && PageOf(va) == FirstPage(p, bias) + j / PAGE_SIZE && UserPage(PageOf(va))
    ensures va % PAGE_SIZE == j % PAGE_SIZE && j / PAGE_SIZE < SegmentPages(p, bias)
  {
    var first := FirstPage(p, bias);
    SegmentBounds(p, bias, first, SegmentPages(p, bias));
    assert p.vaddr + bias == first * PAGE_SIZE;
  }
}

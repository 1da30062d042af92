/** Archives as they are written (section "ustar Interchange Format" of POSIX.1 pax): what the reader of
    src/tarfs.c makes of them. */
module TarWriter {
  import opened TarArchive
  import opened TarNumbers

  /** A member: its name in two parts, its type flag and its contents. The fields that the reader passes over -
      mode, owners, time, checksum and the others - hold any bytes. */
  datatype Member = Member(prefix: string, name: string, flag: Byte, contents: seq<Byte>,
                           owners: seq<Byte>, stamps: seq<Byte>, link: seq<Byte>, rest: seq<Byte>)

  /** The string fits a field of `n` bytes. */
  predicate Fits(s: string, n: nat) {
    |s| <= n && forall i :: 0 <= i < |s| ==> 0 < s[i] as int < 256
  }

  predicate Writable(m: Member) {
    && Fits(m.name, 100) && m.name != "" && Fits(m.prefix, 155) && |m.contents| < Pow8(11)
    && |m.owners| == 24 && |m.stamps| == 20 && |m.link| == 188 && |m.rest| == 12
  }

  function Zeros(n: nat): (z: seq<Byte>)
    ensures |z| == n && forall i :: 0 <= i < n ==> z[i] == 0
  {
    seq(n, _ => 0)
  }

  /** The characters, and zeros up to `n` bytes. */
  function Padded(s: string, n: nat): (b: seq<Byte>)
    requires Fits(s, n)
    ensures |b| == n && forall i :: 0 <= i < n ==> b[i] == if i < |s| then s[i] as int else 0
  {
    seq(|s|, i requires 0 <= i < |s| => s[i] as int) + Zeros(n - |s|)
  }

  /** The header block: name at 0, size at 124, type flag at 156, prefix at 345. */
  function Header(m: Member): (b: seq<Byte>)
    requires Writable(m)
    ensures |b| == BLOCK
  {
    Padded(m.name, 100) + m.owners + Written(|m.contents|, 11) + [0] + m.stamps + [m.flag] + m.link + Padded(m.prefix, 155) + m.rest
  }

  /** The bytes that fill the last block. */
  function Fill(n: nat): (z: seq<Byte>)
    ensures |z| < BLOCK && (n + |z|) % BLOCK == 0
  {
    Zeros((BLOCK - n % BLOCK) % BLOCK)
  }

  function Archive(ms: seq<Member>): seq<Byte>
    requires forall i :: 0 <= i < |ms| ==> Writable(ms[i])
  {
    if ms == [] then [] else Header(ms[0]) + ms[0].contents + Fill(|ms[0].contents|) + Archive(ms[1..])
  }

  // ---------------------------------------------------------------------------------------
  // One header
  // ---------------------------------------------------------------------------------------

  lemma {:induction false} FieldReads(a: seq<Byte>, p: nat, n: nat, s: string)
    requires p + n <= |a| && Fits(s, n) && a[p..p + n] == Padded(s, n)
    ensures TarArchive.Field(a, p, n) == s
    decreases n
  {
    var b := Padded(s, n);
    if n > 0 {
      assert a[p] == b[0];
      if s != "" {
        assert a[p + 1..p + n] == b[1..] == Padded(s[1..], n - 1);
        FieldReads(a, p + 1, n - 1, s[1..]);
        assert [s[0]] + s[1..] == s;
      }
    }
  }

  /** A part of what is written at `p`. */
  lemma Part(a: seq<Byte>, p: nat, b: seq<Byte>, i: nat, j: nat)
    requires p + |b| <= |a| && a[p..p + |b|] == b && i <= j <= |b|
    ensures a[p + i..p + j] == b[i..j]
  {
    var x := a[p + i..p + j];
    forall k | 0 <= k < |x| ensures x[k] == b[i..j][k] { assert a[p..p + |b|][i + k] == a[p + i + k]; }
  }

  lemma HeaderFields(m: Member)
    requires Writable(m)
    ensures var b := Header(m);
            && b[0..100] == Padded(m.name, 100) && b[124..135] == Written(|m.contents|, 11) && b[135] == 0
            && b[156] == m.flag && b[345..500] == Padded(m.prefix, 155)
  {
  }

  /** The whole name, with a leading "./" taken off, of which the reader keeps 255 characters at most. */
  function NameOf(m: Member): string {
    var whole := if m.prefix == "" then m.name else m.prefix + ['/'] + m.name;
    var kept := if |whole| <= 255 then whole else whole[..255];
    if |kept| >= 2 && kept[..2] == "./" then kept[2..] else kept
  }

  predicate IsFolder(m: Member) {
    m.flag == '5' as int || (NameOf(m) != "" && NameOf(m)[|NameOf(m)| - 1] == '/')
  }

  /** A header reads as what was written. */
  lemma HeaderReads(a: seq<Byte>, p: nat, m: Member)
    requires Writable(m) && p + BLOCK <= |a| && a[p..p + BLOCK] == Header(m)
    ensures a[p] != 0 && EntryAt(a, p) == Entry(NameOf(m), IsFolder(m), p + BLOCK, |m.contents|)
  {
    var b := Header(m);
    HeaderFields(m);
    Part(a, p, b, 0, 100);
    Part(a, p, b, 124, 135);
    Part(a, p, b, 345, 500);
    assert a[p + 135] == a[p..p + BLOCK][135] == 0 && a[p + 156] == a[p..p + BLOCK][156];
    FieldReads(a, p, 100, m.name);
    FieldReads(a, p + 345, 155, m.prefix);
    OctalRoundTrip(a, p + 124, 12, |m.contents|, 11);
    assert a[p] == a[p..p + 100][0];
    NameReads(m);
  }

  lemma NameReads(m: Member)
    ensures DropDot(FullName(m.prefix, m.name)) == NameOf(m)
  {
    assert "/" == ['/'];
    var s := FullName(m.prefix, m.name);
    assert |s| >= 2 ==> (s[..2] == "./" <==> s[0] == '.' && s[1] == '/');
  }

  // ---------------------------------------------------------------------------------------
  // The whole archive
  // ---------------------------------------------------------------------------------------

  predicate AllWritable(ms: seq<Member>) {
    forall i :: 0 <= i < |ms| ==> Writable(ms[i])
  }

  /** The entry is that of the member, and its bytes in the archive are the member's contents. */
  predicate Reads(a: seq<Byte>, e: Entry, m: Member) {
    && e.name == NameOf(m) && e.isDir == IsFolder(m) && e.size == |m.contents|
    && e.data + e.size <= |a| && a[e.data..e.data + e.size] == m.contents
  }

  lemma BlocksFill(n: nat)
    ensures Blocks(n) == n + |Fill(n)|
  {
    var q, r := n / BLOCK, n % BLOCK;
    assert n == q * BLOCK + r;
    if r == 0 {
      assert (n + BLOCK - 1) / BLOCK == q;
    } else {
      assert (n + BLOCK - 1) / BLOCK == q + 1;
    }
  }

  /** The archive of `ms` stands in [p, q). */
  predicate Stands(a: seq<Byte>, p: nat, q: nat, ms: seq<Member>) {
    AllWritable(ms) && q == p + |Archive(ms)| && q <= |a| && a[p..q] == Archive(ms)
  }

  lemma ArchiveParts(ms: seq<Member>, n: nat, f: nat)
    requires AllWritable(ms) && ms != [] && n == |ms[0].contents| && f == |Fill(n)|
    ensures var b, rest := Archive(ms), Archive(ms[1..]);
            && |b| == BLOCK + n + f + |rest|
            && b[0..BLOCK] == Header(ms[0]) && b[BLOCK..BLOCK + n] == ms[0].contents && b[BLOCK + n + f..|b|] == rest
  {
    assert Archive(ms) == Header(ms[0]) + ms[0].contents + Fill(n) + Archive(ms[1..]);
  }

  /** The first member of an archive: its header, its contents, and where the rest stands. */
  lemma FirstMember(a: seq<Byte>, p: nat, q: nat, ms: seq<Member>) returns (next: nat)
    requires Stands(a, p, q, ms) && ms != []
    ensures var m := ms[0];
            && p + BLOCK + |m.contents| <= |a| && a[p..p + BLOCK] == Header(m)
            && a[p + BLOCK..p + BLOCK + |m.contents|] == m.contents
            && next == p + BLOCK + Blocks(|m.contents|) && Stands(a, next, q, ms[1..])
  {
    var m, b := ms[0], Archive(ms);
    var n, f := |m.contents|, |Fill(|m.contents|)|;
    BlocksFill(n);
    next := p + BLOCK + Blocks(n);
    ArchiveParts(ms, n, f);
    Part(a, p, b, 0, BLOCK);
    Part(a, p, b, BLOCK, BLOCK + n);
    Part(a, p, b, BLOCK + n + f, |b|);
  }

  /** The entries are those of the members, one by one. */
  predicate AllRead(a: seq<Byte>, es: seq<Entry>, ms: seq<Member>) {
    |es| == |ms| && forall i :: 0 <= i < |ms| ==> Reads(a, es[i], ms[i])
  }

  lemma OneMore(a: seq<Byte>, e: Entry, es: seq<Entry>, ms: seq<Member>)
    requires ms != [] && Reads(a, e, ms[0]) && AllRead(a, es, ms[1..])
    ensures AllRead(a, [e] + es, ms)
  {
    forall i | 0 <= i < |ms| ensures Reads(a, ([e] + es)[i], ms[i]) { assert i > 0 ==> ms[i] == ms[1..][i - 1]; }
  }

  lemma FirstReads(a: seq<Byte>, p: nat, q: nat, ms: seq<Member>) returns (next: nat, e: Entry)
    requires Stands(a, p, q, ms) && ms != []
    ensures p + BLOCK <= |a| && a[p] != 0 && e == EntryAt(a, p) && Reads(a, e, ms[0])
    ensures next == p + BLOCK + Blocks(e.size) && Stands(a, next, q, ms[1..])
  {
    next := FirstMember(a, p, q, ms);
    HeaderReads(a, p, ms[0]);
    e := EntryAt(a, p);
  }

  lemma EntriesUnfold(a: seq<Byte>, p: nat, next: nat)
    requires p + BLOCK <= |a| && a[p] != 0 && next == p + BLOCK + Blocks(EntryAt(a, p).size)
    ensures Entries(a, p) == [EntryAt(a, p)] + Entries(a, next)
  {
  }

  /** An archive, with a zero block or less than a block behind it, reads as the members that were written, in
      their order, each with its contents. */
  lemma {:induction false} ArchiveReads(a: seq<Byte>, p: nat, q: nat, ms: seq<Member>)
    requires Stands(a, p, q, ms) && (q + BLOCK > |a| || a[q] == 0)
    ensures AllRead(a, Entries(a, p), ms)
    decreases |ms|
  {
    if ms != [] {
      var next, e := FirstReads(a, p, q, ms);
      ArchiveReads(a, next, q, ms[1..]);
      EntriesUnfold(a, p, next);
      OneMore(a, e, Entries(a, next), ms);
    }
  }

  /** The name that is looked for: without a leading "./", and 127 characters of it at most. */
  function Wanted(path: string): string {
    var s := if |path| >= 2 && path[..2] == "./" then path[2..] else path;
    if |s| <= 127 then s else s[..127]
  }

  lemma WantedIs(path: string)
    ensures Normalize(path) == Wanted(path)
  {
    assert |path| >= 2 ==> (path[..2] == "./" <==> path[0] == '.' && path[1] == '/');
  }

  /** Member `i` is the first with that name. */
  predicate FirstNamed(ms: seq<Member>, name: string, i: nat) {
    i < |ms| && NameOf(ms[i]) == name && forall j :: 0 <= j < i ==> NameOf(ms[j]) != name
  }

  lemma {:induction false} FindIn(a: seq<Byte>, es: seq<Entry>, ms: seq<Member>, want: string) returns (i: nat)
    requires AllRead(a, es, ms)
    ensures FindEntry(es, want).Some? ==> FirstNamed(ms, want, i) && FindEntry(es, want).value == es[i]
    ensures FindEntry(es, want).None? ==> forall j :: 0 <= j < |ms| ==> NameOf(ms[j]) != want
    decreases |es|
  {
    i := 0;
    if es != [] && es[0].name != want {
      i := FindIn(a, es[1..], ms[1..], want);
      if FindEntry(es, want).Some? {
        i := i + 1;
        forall j | 0 <= j < i ensures NameOf(ms[j]) != want { assert j > 0 ==> ms[j] == ms[1..][j - 1]; }
      } else {
        forall j | 0 <= j < |ms| ensures NameOf(ms[j]) != want { assert j > 0 ==> ms[j] == ms[1..][j - 1]; }
      }
    }
  }

  /** `tarfs_find` in an archive: nothing exactly if no member has the name, and otherwise the contents of the
      first that has. */
  lemma FindReads(a: seq<Byte>, ms: seq<Member>, path: string) returns (i: nat)
    requires AllWritable(ms) && Stands(a, 0, |Archive(ms)|, ms)
    requires |Archive(ms)| + BLOCK > |a| || a[|Archive(ms)|] == 0
    ensures var r := FindEntry(Entries(a, 0), Normalize(path));
            && (r.None? <==> forall j :: 0 <= j < |ms| ==> NameOf(ms[j]) != Wanted(path))
            && (r.Some? ==> FirstNamed(ms, Wanted(path), i) && Reads(a, r.value, ms[i]))
  {
    ArchiveReads(a, 0, |Archive(ms)|, ms);
    WantedIs(path);
    i := FindIn(a, Entries(a, 0), ms, Wanted(path));
  }
}

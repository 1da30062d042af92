/** The ustar archive of src/tarfs.c, on values: its headers, the linear search, and the entries put
    into the node tree. Names are the characters before the first zero byte. */
module TarArchive {
  import opened Basics
  import opened PathNames
  import opened VfsTree

  const BLOCK: nat := 512

  type Byte = x: int | 0 <= x < 256

  datatype Entry = Entry(name: string, isDir: bool, data: nat, size: nat)

  /** The characters of a field of `n` bytes at `p`, up to the first zero. */
  function Field(a: seq<Byte>, p: nat, n: nat): (s: string)
    requires p + n <= |a|
    ensures |s| <= n
    decreases n
  {
    if n == 0 || a[p] == 0 then "" else [a[p] as char] + Field(a, p + 1, n - 1)
  }

  /** The loop of `parse_octal` with `n` characters to go. */
  function Octal(a: seq<Byte>, p: nat, n: nat, v: nat): nat
    requires p + n <= |a|
    decreases n
  {
    if n == 0 || a[p] == 0 then v
    else if a[p] < '0' as int || a[p] > '7' as int then Octal(a, p + 1, n - 1, v)
    else Octal(a, p + 1, n - 1, v * 8 + (a[p] - '0' as int))
  }

  /** One more than the largest value that `n` more digits can make of `v`. */
  function Limit(v: nat, n: nat): nat
    decreases n
  {
    if n == 0 then v + 1 else Limit(v * 8 + 7, n - 1)
  }

  lemma {:induction false} LimitGrows(v: nat, w: nat, n: nat)
    requires v <= w
    ensures Limit(v, n) <= Limit(w, n) && v < Limit(w, n)
    decreases n
  {
    if n > 0 { LimitGrows(v * 8 + 7, w * 8 + 7, n - 1); }
  }

  lemma {:induction false} OctalBelow(a: seq<Byte>, p: nat, n: nat, v: nat)
    requires p + n <= |a|
    ensures Octal(a, p, n, v) < Limit(v, n)
    decreases n
  {
    LimitGrows(v, v, n);
    if n > 0 && a[p] != 0 {
      var w := if a[p] < '0' as int || a[p] > '7' as int then v else v * 8 + (a[p] - '0' as int);
      OctalBelow(a, p + 1, n - 1, w);
      LimitGrows(w, v * 8 + 7, n - 1);
    }
  }

  /** A size of twelve digits fits 64 bits with room to spare, so no addition here wraps. */
  lemma SizeFits(a: seq<Byte>, p: nat)
    requires p + BLOCK <= |a|
    ensures Octal(a, p + 124, 12, 0) < 0x10_0000_0000
  {
    OctalBelow(a, p + 124, 12, 0);
    assert Limit(0, 12) == Limit(7, 11) == Limit(0x3F, 10) == Limit(0x1FF, 9) == Limit(0xFFF, 8) == Limit(0x7FFF, 7);
    assert Limit(0x7FFF, 7) == Limit(0x3_FFFF, 6) == Limit(0x1F_FFFF, 5) == Limit(0xFF_FFFF, 4) == Limit(0x7FF_FFFF, 3);
    assert Limit(0x7FF_FFFF, 3) == Limit(0x3FFF_FFFF, 2) == Limit(0x1_FFFF_FFFF, 1) == Limit(0xF_FFFF_FFFF, 0);
  }

  /** The name with its prefix, cut to 255 characters. */
  function FullName(prefix: string, name: string): string {
    var s := if prefix == "" then name else prefix + "/" + name;
    if |s| > 255 then s[..255] else s
  }

  function DropDot(s: string): string {
    if |s| >= 2 && s[0] == '.' && s[1] == '/' then s[2..] else s
  }

  /** The name `tarfs_find` compares with. */
  function TarName(a: seq<Byte>, p: nat): string
    requires p + BLOCK <= |a|
  {
    DropDot(FullName(Field(a, p + 345, 155), Field(a, p, 100)))
  }

  function EntryAt(a: seq<Byte>, p: nat): (e: Entry)
    requires p + BLOCK <= |a|
    ensures SlashIsDir(e)
  {
    var name := TarName(a, p);
    Entry(name, a[p + 156] == '5' as int || (name != "" && name[|name| - 1] == '/'), p + BLOCK, Octal(a, p + 124, 12, 0))
  }

  function Blocks(size: nat): nat { (size + BLOCK - 1) / BLOCK * BLOCK }

  /** A name that ends in a slash makes its entry a directory; so may the type flag alone. */
  predicate SlashIsDir(e: Entry) { e.name != Clean(e.name) ==> e.isDir }

  /** The entries from `p` to the first block without a name, or to the end. */
  function Entries(a: seq<Byte>, p: nat): (es: seq<Entry>)
    ensures forall i :: 0 <= i < |es| ==> SlashIsDir(es[i])
    decreases |a| - p
  {
    if p + BLOCK > |a| || a[p] == 0 then [] else [EntryAt(a, p)] + Entries(a, p + BLOCK + Blocks(EntryAt(a, p).size))
  }

  function Normalize(path: string): string {
    var s := DropDot(path);
    if |s| >= 128 then s[..127] else s
  }

  /** The first entry of that name. */
  function FindEntry(es: seq<Entry>, want: string): (r: Option<Entry>)
    ensures r.Some? ==> r.value in es && r.value.name == want
    ensures r.None? ==> forall e :: e in es ==> e.name != want
  {
    if es == [] then None else if es[0].name == want then Some(es[0]) else FindEntry(es[1..], want)
  }

  /** The name an entry is stored under: without a trailing slash. */
  function Clean(name: string): string {
    if name != "" && name[|name| - 1] == '/' then name[..|name| - 1] else name
  }

  function DirNode(name: string): Node { NewNode(name, Dir, Tarfs, 0, 0) }

  function LeafNode(e: Entry, name: string): Node {
    if e.isDir then DirNode(name) else NewNode(name, File, Tarfs, e.data, e.size)
  }

  /** The loop of `tarfs_add_entry` at node `cur` with `p` to go, no allocation failing. */
  function AddFrom(fs: Fs, cur: nat, p: string, e: Entry): Fs
    decreases |p|
  {
    if p == "" then fs else
    var len := SegLen(p);
    if len > NAME_MAX then fs else
    var name := p[..len];
    var c := FindChild(fs, cur, name);
    if len < |p| then
      if c.Some? then AddFrom(fs, c.value, p[len + 1..], e) else
      var (gs, ok) := AddChild(fs, cur, DirNode(name));
      if ok then AddFrom(gs, fs.next, p[len + 1..], e) else gs
    else if c.Some? then fs else AddChild(fs, cur, LeafNode(e, name)).0
  }

  /** `tarfs_populate_vfs` */
  function Populate(fs: Fs, es: seq<Entry>): Fs
    decreases |es|
  {
    if es == [] then fs else Populate(AddFrom(fs, fs.root, Clean(es[0].name), es[0]), es[1..])
  }
}

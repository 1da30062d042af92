/** src/tarfs.c as it runs: block by block through the archive. */
module Tarfs {
  import opened Basics
  import opened PathNames
  import opened VfsTree
  import opened VfsLaws
  import opened TarArchive
  import opened Vfs

  method ParseOctal(a: seq<Byte>, p: nat, n: nat) returns (v: nat)
    requires p + n <= |a|
    ensures v == Octal(a, p, n, 0)
  {
    v := 0;
    for i := 0 to n
      invariant Octal(a, p + i, n - i, v) == Octal(a, p, n, 0)
    {
      if a[p + i] == 0 { return; }
      if a[p + i] < '0' as int || a[p + i] > '7' as int { continue; }
      v := v * 8 + (a[p + i] - '0' as int);
    }
  }

  method ReadField(a: seq<Byte>, p: nat, n: nat) returns (s: string)
    requires p + n <= |a|
    ensures s == Field(a, p, n)
  {
    s := "";
    for i := 0 to n
      invariant s + Field(a, p + i, n - i) == Field(a, p, n)
    {
      if a[p + i] == 0 { return; }
      s := s + [a[p + i] as char];
    }
  }

  method ReadHeader(a: seq<Byte>, p: nat) returns (e: Entry)
    requires p + BLOCK <= |a|
    ensures e == EntryAt(a, p)
  {
    var size := ParseOctal(a, p + 124, 12);
    var prefix := ReadField(a, p + 345, 155);
    var short := ReadField(a, p, 100);
    var name := DropDot(FullName(prefix, short));
    return Entry(name, a[p + 156] == '5' as int || (name != "" && name[|name| - 1] == '/'), p + BLOCK, size);
  }

  /** `tarfs_find`: where the data begins and how long it is. */
  method Find(a: seq<Byte>, path: string) returns (r: Option<(nat, nat)>)
    ensures var e := FindEntry(Entries(a, 0), Normalize(path));
            r == if e.Some? then Some((e.value.data, e.value.size)) else None
  {
    var want, p := Normalize(path), 0;
    while p + BLOCK <= |a|
      invariant FindEntry(Entries(a, p), want) == FindEntry(Entries(a, 0), want)
      decreases |a| - p
    {
      if a[p] == 0 { return None; }
      var e := ReadHeader(a, p);
      if e.name == want { return Some((e.data, e.size)); }
      assert Entries(a, p)[1..] == Entries(a, p + BLOCK + Blocks(e.size));
      p := p + BLOCK + Blocks(e.size);
    }
    return None;
  }

  /** A node is created under `d` and linked in, unless its name is taken there. */
  method Link(fs: FileSystem, d: nat, node: Node, ghost st: Fs) returns (ok: bool, ghost after: Fs)
    requires fs.Valid() && node.children == [] && st == fs.State()
    modifies fs`nodes, fs`next
    ensures fs.Valid() && after == fs.State() && (after, ok) == AddChild(st, d, node)
  {
    after := st;
    if AddChild(st, d, node).1 { AddKeepsTree(st, d, node); }
    var c := fs.FindChild(d, node.name);
    if d !in fs.nodes || fs.nodes[d].kind != Dir || c.Some? { return false, st; }
    fs.nodes := fs.nodes[fs.next := node.(parent := Some(d))][d := fs.nodes[d].(children := [fs.next] + fs.nodes[d].children)];
    fs.next := fs.next + 1;
    return true, fs.State();
  }

  lemma AddRound(fs: Fs, cur: nat, path: string, p: nat, e: Entry, len: nat, name: string, q: nat)
    requires p + len <= |path| && p < |path| && len == SegLen(path[p..]) <= NAME_MAX
    requires name == path[p..p + len] && q == p + len + 1
    ensures AddFrom(fs, cur, path[p..], e) ==
            var c := FindChild(fs, cur, name);
            if q > |path| then if c.Some? then fs else AddChild(fs, cur, LeafNode(e, name)).0
            else if c.Some? then AddFrom(fs, c.value, path[q..], e)
            else var (gs, ok) := AddChild(fs, cur, DirNode(name)); if ok then AddFrom(gs, fs.next, path[q..], e) else gs
  {
    var here := path[p..];
    assert here[..len] == name && (q <= |path| ==> here[len + 1..] == path[q..]);
    AddHere(fs, cur, here, e, len, name, if q <= |path| then path[q..] else "");
  }

  lemma AddHere(fs: Fs, cur: nat, p: string, e: Entry, len: nat, name: string, rest: string)
    requires p != "" && len == SegLen(p) <= NAME_MAX && name == p[..len] && (len < |p| ==> rest == p[len + 1..])
    ensures AddFrom(fs, cur, p, e) ==
            var c := FindChild(fs, cur, name);
            if len == |p| then if c.Some? then fs else AddChild(fs, cur, LeafNode(e, name)).0
            else if c.Some? then AddFrom(fs, c.value, rest, e)
            else var (gs, ok) := AddChild(fs, cur, DirNode(name)); if ok then AddFrom(gs, fs.next, rest, e) else gs
  {
  }

  /** One round of the loop of `tarfs_add_entry`: the entry is in, or the next component is to go. */
  method AddComponent(fs: FileSystem, cur: nat, path: string, p: nat, e: Entry, ghost st: Fs, ghost answer: Fs)
    returns (done: bool, q: nat, d: nat, ghost after: Fs)
    requires fs.Valid() && st == fs.State() && p < |path| && AddFrom(st, cur, path[p..], e) == answer
    modifies fs`nodes, fs`next
    ensures fs.Valid() && after == fs.State()
    ensures if done then after == answer else p < q <= |path| && AddFrom(after, d, path[q..], e) == answer
  {
    after := st;
    var len := FileSystem.ScanName(path, p);
    if len > NAME_MAX { return true, p, cur, st; }
    var name := path[p..p + len];
    var c := fs.FindChild(cur, name);
    var ok := true;
    q := p + len + 1;
    AddRound(st, cur, path, p, e, len, name, q);
    if p + len == |path| {
      if c.None? { ok, after := Link(fs, cur, LeafNode(e, name), st); }
      return true, p, cur, after;
    }
    if c.None? {
      c := Some(fs.next);
      ok, after := Link(fs, cur, DirNode(name), st);
    }
    return !ok, q, c.value, after;
  }

  /** `tarfs_add_entry` */
  method AddEntry(fs: FileSystem, path: string, e: Entry, ghost st: Fs) returns (ghost after: Fs)
    requires fs.Valid() && st == fs.State()
    modifies fs`nodes, fs`next
    ensures fs.Valid() && after == fs.State() == AddFrom(st, fs.root, path, e)
  {
    ghost var answer := AddFrom(st, fs.root, path, e);
    var p, cur := 0, fs.root;
    after := st;
    assert path[0..] == path;
    while p < |path|
      invariant p <= |path| && fs.Valid() && after == fs.State()
      invariant AddFrom(after, cur, path[p..], e) == answer
    {
      var done;
      done, p, cur, after := AddComponent(fs, cur, path, p, e, after, answer);
      if done { return; }
    }
  }

  lemma EntriesUnfold(a: seq<Byte>, p: nat)
    requires p + BLOCK <= |a| && a[p] != 0
    ensures Entries(a, p) == [EntryAt(a, p)] + Entries(a, p + BLOCK + Blocks(EntryAt(a, p).size))
  {
  }

  lemma PopulateUnfold(fs: Fs, es: seq<Entry>, e: Entry, rest: seq<Entry>)
    requires es == [e] + rest
    ensures Populate(fs, es) == Populate(AddFrom(fs, fs.root, Clean(e.name), e), rest)
  {
    assert es[1..] == rest;
  }

  /** `tarfs_populate_vfs` */
  method PopulateVfs(fs: FileSystem, a: seq<Byte>)
    requires fs.Valid()
    modifies fs`nodes, fs`next
    ensures fs.Valid() && fs.State() == Populate(old(fs.State()), Entries(a, 0))
  {
    ghost var st := fs.State();
    ghost var answer := Populate(st, Entries(a, 0));
    var p := 0;
    while p + BLOCK <= |a|
      invariant fs.Valid() && st == fs.State() && Populate(st, Entries(a, p)) == answer
      decreases |a| - p
    {
      if a[p] == 0 { return; }
      var e := ReadHeader(a, p);
      EntriesUnfold(a, p);
      PopulateUnfold(st, Entries(a, p), e, Entries(a, p + BLOCK + Blocks(e.size)));
      st := AddEntry(fs, Clean(e.name), e, st);
      p := p + BLOCK + Blocks(e.size);
    }
  }
}

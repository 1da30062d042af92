/** The tree that is built from an archive agrees with a linear search of the archive. */
module TarLaws {
  import opened Basics
  import opened PathNames
  import opened VfsTree
  import opened VfsLaws
  import opened TarArchive

  /** The node under a list of names, from the root. */
  function Descend(fs: Fs, cs: seq<string>): Option<nat>
    decreases |cs|
  {
    if cs == [] then Some(fs.root) else
    var d := Descend(fs, cs[..|cs| - 1]);
    if d.None? then None else FindChild(fs, d.value, cs[|cs| - 1])
  }

  lemma {:induction false} DescendStays(fs: Fs, cs: seq<string>)
    requires TreeOk(fs)
    ensures Descend(fs, cs).Some? ==> Descend(fs, cs).value in fs.nodes
    decreases |cs|
  {
    if cs != [] {
      DescendStays(fs, cs[..|cs| - 1]);
      var d := Descend(fs, cs[..|cs| - 1]);
      if d.Some? && d.value in fs.nodes { assert NodeOk(fs, d.value); }
    }
  }

  /** In a tree different lists of names lead to different nodes. */
  lemma {:induction false} DescendInjective(fs: Fs, a: seq<string>, b: seq<string>)
    requires TreeOk(fs) && Descend(fs, a).Some? && Descend(fs, a) == Descend(fs, b)
    ensures a == b
    decreases |a| + |b|
  {
    if a == [] || b == [] {
      if a != [] { NotRoot(fs, a); }
      if b != [] { NotRoot(fs, b); }
    } else {
      NotRoot(fs, a);
      NotRoot(fs, b);
      DescendInjective(fs, a[..|a| - 1], b[..|b| - 1]);
      assert a == a[..|a| - 1] + [a[|a| - 1]] && b == b[..|b| - 1] + [b[|b| - 1]];
    }
  }

  /** Below the root a node's parent and name are where the descent came from. */
  lemma NotRoot(fs: Fs, a: seq<string>)
    requires TreeOk(fs) && a != [] && Descend(fs, a).Some?
    ensures var n := Descend(fs, a).value;
            n in fs.nodes && n != fs.root && fs.nodes[n].parent == Descend(fs, a[..|a| - 1]) && fs.nodes[n].name == a[|a| - 1]
  {
    DescendStays(fs, a);
    DescendStays(fs, a[..|a| - 1]);
    var n, d := Descend(fs, a).value, Descend(fs, a[..|a| - 1]).value;
    assert NodeOk(fs, d) && NodeOk(fs, n);
  }

  /** A child added at `pre` shows under its own name there and nowhere else. */
  lemma {:induction false} AddDescends(fs: Fs, pre: seq<string>, d: nat, node: Node, cs: seq<string>)
    requires TreeOk(fs) && Descend(fs, pre) == Some(d) && AddChild(fs, d, node).1 && node.children == []
    ensures Descend(AddChild(fs, d, node).0, cs) == if cs == pre + [node.name] then Some(fs.next) else Descend(fs, cs)
    decreases |cs|
  {
    var gs := AddChild(fs, d, node).0;
    if cs != [] {
      var up, x := cs[..|cs| - 1], cs[|cs| - 1];
      assert cs == up + [x];
      AddDescends(fs, pre, d, node, up);
      DescendStays(fs, up);
      if up == pre + [node.name] {
        AddFinds(fs, d, node, fs.next, x);
        LongerMissing(fs, pre, d, node, cs);
      } else if Descend(fs, up).Some? {
        AddFinds(fs, d, node, Descend(fs, up).value, x);
        if Descend(fs, up).value == d { DescendInjective(fs, up, pre); }
        assert (pre + [node.name])[..|pre|] == pre;
      } else {
        assert (pre + [node.name])[..|pre|] == pre;
      }
    }
  }

  lemma LongerMissing(fs: Fs, pre: seq<string>, d: nat, node: Node, cs: seq<string>)
    requires Descend(fs, pre) == Some(d) && AddChild(fs, d, node).1 && cs != [] && cs[..|cs| - 1] == pre + [node.name]
    ensures Descend(fs, cs).None?
  {
    var up := pre + [node.name];
    assert up[..|up| - 1] == pre;
  }

  // ---------------------------------------------------------------------------------------
  // One entry
  // ---------------------------------------------------------------------------------------

  /** What there is under a list of names. */
  datatype Info = Info(kind: Kind, data: nat, size: nat)

  function Look(fs: Fs, cs: seq<string>): Option<Info> {
    var n := Descend(fs, cs);
    if n.Some? && n.value in fs.nodes then Some(InfoOf(fs.nodes[n.value])) else None
  }

  function InfoOf(x: Node): Info { Info(x.kind, x.data, x.size) }

  function EntryInfo(e: Entry): Info { if e.isDir then Info(Dir, 0, 0) else Info(File, e.data, e.size) }

  lemma AddLooks(fs: Fs, pre: seq<string>, d: nat, node: Node, cs: seq<string>)
    requires TreeOk(fs) && Descend(fs, pre) == Some(d) && AddChild(fs, d, node).1 && node.children == []
    ensures Look(AddChild(fs, d, node).0, cs) == if cs == pre + [node.name] then Some(InfoOf(node)) else Look(fs, cs)
  {
    AddDescends(fs, pre, d, node, cs);
    DescendStays(fs, cs);
  }

  /** Proper components between single slashes, none of them too long. */
  predicate ProperName(s: string)
    decreases |s|
  {
    var n := SegLen(s);
    !Improper(s[..n]) && n <= NAME_MAX && (n < |s| ==> ProperName(s[n + 1..]))
  }

  lemma ProperComps(s: string)
    requires ProperName(s)
    ensures var n := SegLen(s); n > 0 && Comps(s) == [s[..n]] + if n < |s| then Comps(s[n + 1..]) else []
  {
    var n := SegLen(s);
    if n < |s| { assert s[n..][1..] == s[n + 1..]; } else { assert s[n..] == ""; }
  }

  /** What stands in the way of a new entry is a directory. */
  ghost predicate Clear(fs: Fs, pre: seq<string>, cs: seq<string>) {
    forall k: nat {:trigger cs[..k]} :: k < |cs| && Look(fs, pre + cs[..k]).Some? ==> Look(fs, pre + cs[..k]).value.kind == Dir
  }

  /** The names strictly below `pre` on the way to `full`. */
  predicate Between(pre: seq<string>, ds: seq<string>, full: seq<string>) {
    |pre| < |ds| && ds <= full
  }

  /** An entry adds itself and the missing directories on the way, and changes nothing there was. */
  lemma {:induction false} AddFromLaw(fs: Fs, pre: seq<string>, cur: nat, p: string, e: Entry, ds: seq<string>)
    requires TreeOk(fs) && Descend(fs, pre) == Some(cur) && ProperName(p) && Clear(fs, pre, Comps(p))
    ensures var gs := AddFrom(fs, cur, p, e);
            var full := pre + Comps(p);
            && TreeOk(gs) && gs.root == fs.root
            && Look(gs, ds) == if Look(fs, ds).Some? then Look(fs, ds)
                               else if Between(pre, ds, full) then Some(if ds == full then EntryInfo(e) else Info(Dir, 0, 0))
                               else None
    decreases |p|
  {
    var n := SegLen(p);
    var name, cs := p[..n], Comps(p);
    ProperComps(p);
    DescendStays(fs, pre);
    assert pre + cs[..0] == pre;
    assert IsDir(fs, cur);
    var here := pre + [name];
    assert here[..|pre|] == pre;
    var c := FindChild(fs, cur, name);
    assert Descend(fs, here) == c;
    DescendStays(fs, here);
    if n == |p| {
      assert cs == [name];
      if c.None? {
        AddKeepsTree(fs, cur, LeafNode(e, name));
        AddLooks(fs, pre, cur, LeafNode(e, name), ds);
      }
      assert Between(pre, ds, here) ==> ds == here;
    } else {
      var rest := p[n + 1..];
      if c.Some? {
        ClearRest(fs, fs, pre, name, Comps(rest));
        AddFromLaw(fs, here, c.value, rest, e, ds);
      } else {
        var dir := DirNode(name);
        var gs := AddChild(fs, cur, dir).0;
        AddKeepsTree(fs, cur, dir);
        AddLooks(fs, pre, cur, dir, ds);
        AddDescends(fs, pre, cur, dir, here);
        forall x: seq<string> ensures Look(gs, x) == if x == here then Some(Info(Dir, 0, 0)) else Look(fs, x) { AddLooks(fs, pre, cur, dir, x); }
        ClearRest(fs, gs, pre, name, Comps(rest));
        AddFromLaw(gs, here, fs.next, rest, e, ds);
      }
      BetweenStep(pre, name, Comps(rest), ds);
    }
  }

  lemma ClearRest(fs: Fs, gs: Fs, pre: seq<string>, name: string, cs: seq<string>)
    requires Clear(fs, pre, [name] + cs)
    requires forall x: seq<string> :: Look(gs, x) == Look(fs, x) || Look(gs, x) == Some(Info(Dir, 0, 0))
    ensures Clear(gs, pre + [name], cs)
  {
    forall k: nat | k < |cs| && Look(gs, pre + [name] + cs[..k]).Some? ensures Look(gs, pre + [name] + cs[..k]).value.kind == Dir {
      assert pre + ([name] + cs)[..k + 1] == pre + [name] + cs[..k];
    }
  }

  lemma BetweenStep(pre: seq<string>, name: string, cs: seq<string>, ds: seq<string>)
    ensures pre + ([name] + cs) == pre + [name] + cs
    ensures Between(pre, ds, pre + ([name] + cs)) <==> ds == pre + [name] || Between(pre + [name], ds, pre + [name] + cs)
  {
    var full := pre + ([name] + cs);
    assert full == pre + [name] + cs;
    if Between(pre, ds, full) && |ds| == |pre| + 1 { assert ds == full[..|ds|] == pre + [name]; }
    if ds == pre + [name] { assert full[..|ds|] == ds; }
  }

  // ---------------------------------------------------------------------------------------
  // A whole archive
  // ---------------------------------------------------------------------------------------

  function Path(e: Entry): seq<string> { Comps(Clean(e.name)) }

  /** What the archive itself says about a list of names: the first entry at or below it decides. */
  function Told(es: seq<Entry>, ds: seq<string>): Option<Info> {
    if es == [] then None
    else if ds <= Path(es[0]) then Some(if ds == Path(es[0]) then EntryInfo(es[0]) else Info(Dir, 0, 0))
    else Told(es[1..], ds)
  }

  /** Proper names, and nothing below a file. */
  ghost predicate Proper(es: seq<Entry>) {
    && (forall i :: 0 <= i < |es| ==> ProperName(Clean(es[i].name)))
    && (forall i, j :: 0 <= i < |es| && 0 <= j < |es| && !es[i].isDir && Path(es[i]) <= Path(es[j]) ==>
          !es[j].isDir && Path(es[j]) == Path(es[i]))
  }

  lemma {:induction false} ToldSource(es: seq<Entry>, ds: seq<string>) returns (i: nat)
    requires Told(es, ds).Some?
    ensures i < |es| && ds <= Path(es[i]) && Told(es, ds).value == if ds == Path(es[i]) then EntryInfo(es[i]) else Info(Dir, 0, 0)
    decreases |es|
  {
    if ds <= Path(es[0]) {
      i := 0;
    } else {
      var j := ToldSource(es[1..], ds);
      i := j + 1;
    }
  }

  lemma {:induction false} ToldAppend(es: seq<Entry>, e: Entry, ds: seq<string>)
    ensures Told(es + [e], ds) == if Told(es, ds).Some? then Told(es, ds) else Told([e], ds)
    decreases |es|
  {
    if es == [] {
      assert es + [e] == [e];
    } else {
      assert (es + [e])[1..] == es[1..] + [e];
      ToldAppend(es[1..], e, ds);
    }
  }

  /** The tree shows, below the root, what the first entries say. */
  ghost predicate Shows(fs: Fs, es: seq<Entry>) {
    && TreeOk(fs) && Look(fs, []) == Some(Info(Dir, 0, 0))
    && forall ds: seq<string> :: ds != [] ==> Look(fs, ds) == Told(es, ds)
  }

  lemma ClearNext(fs: Fs, es: seq<Entry>, e: Entry)
    requires Shows(fs, es) && Proper(es + [e])
    ensures Clear(fs, [], Path(e))
  {
    var cs := Path(e);
    assert (es + [e])[|es|] == e;
    forall k: nat | k < |cs| && Look(fs, [] + cs[..k]).Some? ensures Look(fs, [] + cs[..k]).value.kind == Dir {
      var x := cs[..k];
      assert [] + x == x;
      if x != [] {
        var i := ToldSource(es, x);
        assert (es + [e])[i] == es[i];
      }
    }
  }

  lemma ShowsNext(fs: Fs, es: seq<Entry>, e: Entry)
    requires Shows(fs, es) && Proper(es + [e])
    ensures Shows(AddFrom(fs, fs.root, Clean(e.name), e), es + [e])
  {
    var p := Clean(e.name);
    var gs := AddFrom(fs, fs.root, p, e);
    assert (es + [e])[|es|] == e;
    ClearNext(fs, es, e);
    OneShown(fs, es, e, p, [], gs);
    forall ds: seq<string> ensures Look(gs, ds) == if ds == [] then Some(Info(Dir, 0, 0)) else Told(es + [e], ds) {
      OneShown(fs, es, e, p, ds, gs);
    }
  }

  lemma OneShown(fs: Fs, es: seq<Entry>, e: Entry, p: string, ds: seq<string>, gs: Fs)
    requires Shows(fs, es) && ProperName(p) && p == Clean(e.name) && Clear(fs, [], Path(e)) && gs == AddFrom(fs, fs.root, p, e)
    ensures TreeOk(gs) && Look(gs, ds) == if ds == [] then Some(Info(Dir, 0, 0)) else Told(es + [e], ds)
  {
    assert [] + Comps(p) == Comps(p);
    AddFromLaw(fs, [], fs.root, p, e, ds);
    ToldAppend(es, e, ds);
  }

  lemma {:induction false} PopulateShows(fs: Fs, es: seq<Entry>, more: seq<Entry>)
    requires Shows(fs, es) && Proper(es + more)
    ensures Shows(Populate(fs, more), es + more)
    decreases |more|
  {
    if more == [] {
      assert es + more == es;
    } else {
      assert es + more == es + [more[0]] + more[1..];
      ProperPrefix(es + [more[0]], more[1..]);
      ShowsNext(fs, es, more[0]);
      PopulateShows(AddFrom(fs, fs.root, Clean(more[0].name), more[0]), es + [more[0]], more[1..]);
    }
  }

  lemma ProperPrefix(es: seq<Entry>, more: seq<Entry>)
    requires Proper(es + more)
    ensures Proper(es)
  {
    assert forall i :: 0 <= i < |es| ==> (es + more)[i] == es[i];
  }

  /** The first component and the rest make up the name. */
  lemma ProperParts(a: string)
    requires ProperName(a)
    ensures var n := SegLen(a);
            && |Comps(a)| > 0 && Comps(a)[0] == a[..n] && (|Comps(a)| > 1 <==> n < |a|)
            && (n < |a| ==> ProperName(a[n + 1..]) && Comps(a[n + 1..]) == Comps(a)[1..] && a == a[..n] + "/" + a[n + 1..])
            && (n == |a| ==> a == a[..n])
  {
    ProperComps(a);
    var n := SegLen(a);
    if n < |a| { ProperComps(a[n + 1..]); }
  }

  lemma {:induction false} ProperInjective(a: string, b: string)
    requires ProperName(a) && ProperName(b) && Comps(a) == Comps(b)
    ensures a == b
    decreases |a|
  {
    ProperParts(a);
    ProperParts(b);
    var n, m := SegLen(a), SegLen(b);
    assert n == |a[..n]| == |b[..m]| == m;
    if n < |a| { ProperInjective(a[n + 1..], b[n + 1..]); }
  }

  /** The archive tells of a file exactly when the linear search for its name finds a file entry. */
  lemma {:induction false} FindIsTold(es: seq<Entry>, q: string, e: Entry)
    requires Proper(es) && (forall i :: 0 <= i < |es| ==> SlashIsDir(es[i])) && ProperName(q)
    ensures Told(es, Comps(q)) == Some(Info(File, e.data, e.size)) <==> FoundFile(FindEntry(es, q), e)
    decreases |es|
  {
    if es != [] {
      var x := es[0];
      assert Proper(es[1..]) by {
        assert forall i :: 0 <= i < |es| - 1 ==> es[1..][i] == es[i + 1];
      }
      if x.name == q {
        NoTrailingSlash(q);
      } else {
        FindIsTold(es[1..], q, e);
        if Comps(q) <= Path(x) { SearchMisses(es, q, x); }
      }
    }
  }

  /** The search answers with the data and size of `e`. */
  predicate Found(r: Option<Entry>, e: Entry) {
    r.Some? && r.value.data == e.data && r.value.size == e.size
  }

  predicate FoundFile(r: Option<Entry>, e: Entry) { Found(r, e) && !r.value.isDir }

  lemma {:induction false} NoTrailingSlash(q: string)
    requires ProperName(q)
    ensures q != "" && q[|q| - 1] != '/' && Clean(q) == q
    decreases |q|
  {
    var n := SegLen(q);
    assert q[..n] != "";
    if n < |q| {
      NoTrailingSlash(q[n + 1..]);
    } else {
      assert q[n - 1] in q[..n];
    }
  }

  /** An entry of another name at or below `q` leaves no file of that name. */
  lemma SearchMisses(es: seq<Entry>, q: string, x: Entry)
    requires Proper(es) && (forall i :: 0 <= i < |es| ==> SlashIsDir(es[i])) && ProperName(q) && x in es && x.name != q && Comps(q) <= Path(x)
    ensures Comps(q) == Path(x) ==> x.isDir
    ensures FindEntry(es, q).Some? ==> FindEntry(es, q).value.isDir
  {
    var i :| 0 <= i < |es| && es[i] == x;
    NoTrailingSlash(q);
    if Comps(q) == Path(x) {
      ProperInjective(q, Clean(x.name));
    }
  }

  // ---------------------------------------------------------------------------------------
  // Resolution
  // ---------------------------------------------------------------------------------------

  lemma {:induction false} ProperEach(q: string)
    requires ProperName(q)
    ensures forall i :: 0 <= i < |Comps(q)| ==> !Improper(Comps(q)[i]) && |Comps(q)[i]| <= NAME_MAX
    decreases |q|
  {
    ProperParts(q);
    var n := SegLen(q);
    if n < |q| {
      ProperEach(q[n + 1..]);
      forall i | 0 <= i < |Comps(q)| ensures !Improper(Comps(q)[i]) && |Comps(q)[i]| <= NAME_MAX {
        if i > 0 { assert Comps(q)[i] == Comps(q[n + 1..])[i - 1]; }
      }
    }
  }

  lemma {:induction false} WalkIsDescend(fs: Fs, cs: seq<string>)
    requires forall i :: 0 <= i < |cs| ==> !Improper(cs[i]) && |cs[i]| <= NAME_MAX
    ensures Walk(fs, fs.root, cs) == Descend(fs, cs)
    decreases |cs|
  {
    if cs != [] {
      var up, x := cs[..|cs| - 1], cs[|cs| - 1];
      WalkIsDescend(fs, up);
      assert cs == up + [x];
      WalkLast(fs, fs.root, up, x);
    }
  }

  lemma ResolveIsDescend(fs: Fs, q: string)
    requires ProperName(q)
    ensures Resolve(fs, q, None) == Descend(fs, Comps(q))
  {
    ResolveIsWalk(fs, q, None);
    ProperEach(q);
    WalkIsDescend(fs, Comps(q));
  }

  /** A tree with nothing but a root directory. */
  ghost predicate Empty(fs: Fs) {
    TreeOk(fs) && fs.nodes[fs.root].children == [] && InfoOf(fs.nodes[fs.root]) == Info(Dir, 0, 0)
  }

  lemma {:induction false} EmptyShows(fs: Fs, ds: seq<string>)
    requires Empty(fs)
    ensures Look(fs, ds) == if ds == [] then Some(Info(Dir, 0, 0)) else None
    decreases |ds|
  {
    if ds != [] { EmptyShows(fs, ds[..|ds| - 1]); }
  }

  /** A path names a file with this place and size in the tree. */
  predicate IsFile(fs: Fs, q: string, data: nat, size: nat) {
    var n := Resolve(fs, q, None);
    n.Some? && n.value in fs.nodes && InfoOf(fs.nodes[n.value]) == Info(File, data, size)
  }

  /** The index agrees with the linear search: over a proper archive put into an empty tree, a proper
      path shorter than 128 characters resolves to a file with given data and size exactly when
      `tarfs_find` comes to a file entry with that data and size - the first entry winning in both. */
  lemma IndexAgrees(a: seq<Byte>, fs: Fs, q: string, e: Entry)
    requires Empty(fs) && Proper(Entries(a, 0)) && ProperName(q) && |q| < 128
    ensures IsFile(Populate(fs, Entries(a, 0)), q, e.data, e.size) <==> FoundFile(FindEntry(Entries(a, 0), Normalize(q)), e)
  {
    var es := Entries(a, 0);
    var gs := Populate(fs, es);
    forall ds: seq<string> ensures Look(fs, ds) == if ds == [] then Some(Info(Dir, 0, 0)) else None { EmptyShows(fs, ds); }
    assert [] + es == es;
    PopulateShows(fs, [], es);
    ResolveIsDescend(gs, q);
    DescendStays(gs, Comps(q));
    ProperParts(q);
    FindIsTold(es, q, e);
    NotDotted(q);
  }

  /** `tarfs_find` itself, which does not look at the type, agrees with the index for a path exactly
      when what it finds is not a directory entry without a slash at its end. */
  lemma SearchAgrees(a: seq<Byte>, fs: Fs, q: string)
    requires Empty(fs) && Proper(Entries(a, 0)) && ProperName(q) && |q| < 128
    ensures var found := FindEntry(Entries(a, 0), Normalize(q));
            (forall e: Entry {:trigger Found(found, e)} :: IsFile(Populate(fs, Entries(a, 0)), q, e.data, e.size) <==> Found(found, e))
            <==> !(found.Some? && found.value.isDir)
  {
    var found := FindEntry(Entries(a, 0), Normalize(q));
    forall e: Entry ensures IsFile(Populate(fs, Entries(a, 0)), q, e.data, e.size) <==> FoundFile(found, e) { IndexAgrees(a, fs, q, e); }
    if found.Some? && found.value.isDir { assert Found(found, found.value) && !FoundFile(found, found.value); }
  }

  /** An archive of one block: a directory "d" by its type flag, no slash. */
  function SlashlessArchive(): seq<Byte> {
    seq(BLOCK, i => if i == 0 then 'd' as int else if i == 156 then '5' as int else 0)
  }

  /** The search finds this directory under a path that is no file in the tree. */
  lemma SlashlessFails(fs: Fs)
    requires Empty(fs)
    ensures var a := SlashlessArchive();
            && FindEntry(Entries(a, 0), Normalize("d")) == Some(Entry("d", true, 512, 0))
            && !IsFile(Populate(fs, Entries(a, 0)), "d", 512, 0)
  {
    var a, e := SlashlessArchive(), Entry("d", true, 512, 0);
    assert Field(a, 0, 100) == "d" by { assert Field(a, 1, 99) == ""; }
    assert Entries(a, 0) == [e] by { assert Octal(a, 124, 12, 0) == 0; }
    assert ProperName("d") && Clean("d") == "d" by { assert SegLen("d"[1..]) == 0; }
    IndexAgrees(a, fs, "d", e);
  }

  lemma NotDotted(q: string)
    requires ProperName(q) && |q| < 128
    ensures Normalize(q) == q
  {
  }
}

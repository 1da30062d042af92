/** Path resolution and the shape of the tree. */
module VfsLaws {
  import opened Basics
  import opened PathNames
  import opened VfsTree

  // ---------------------------------------------------------------------------------------
  // Resolution is a walk over the components
  // ---------------------------------------------------------------------------------------

  function Walk(fs: Fs, cur: nat, cs: seq<string>): Option<nat>
    decreases |cs|
  {
    if cs == [] then Some(cur) else
    var next := Enter(fs, cur, cs[0]);
    if next.None? then None else Walk(fs, next.value, cs[1..])
  }

  lemma {:induction false} ResolveFromIsWalk(fs: Fs, cur: nat, p: string)
    ensures ResolveFrom(fs, cur, p) == Walk(fs, cur, Comps(p))
    decreases |p|
  {
    if p != "" {
      var len := SegLen(p);
      if len == 0 {
        CompsSkip(p[1..]);
        ResolveFromIsWalk(fs, cur, SkipSlashes(p[1..]));
      } else {
        CompsSkip(p[len..]);
        var next := Enter(fs, cur, p[..len]);
        assert Comps(p)[1..] == Comps(p[len..]);
        if next.Some? { ResolveFromIsWalk(fs, next.value, SkipSlashes(p[len..])); }
      }
    }
  }

  lemma ResolveRound(fs: Fs, cur: nat, p: string, len: nat, next: Option<nat>, q: string)
    requires len == SegLen(p) > 0 && next == Enter(fs, cur, p[..len]) && q == SkipSlashes(p[len..])
    ensures ResolveFrom(fs, cur, p) == if next.None? then None else ResolveFrom(fs, next.value, q)
  {
  }

  /** The same with positions in the path. */
  lemma RoundAt(fs: Fs, cur: nat, path: string, p: nat, len: nat, next: Option<nat>, q: nat)
    requires p + len <= q <= |path| && len == SegLen(path[p..]) > 0 && next == Enter(fs, cur, path[p..p + len])
    requires path[q..] == SkipSlashes(path[p + len..])
    ensures ResolveFrom(fs, cur, path[p..]) == if next.None? then None else ResolveFrom(fs, next.value, path[q..])
  {
    assert path[p..][..len] == path[p..p + len] && path[p..][len..] == path[p + len..];
    ResolveRound(fs, cur, path[p..], len, next, path[q..]);
  }

  /** `vfs_resolve` walks the components of the path, from the root or from the given directory. */
  lemma ResolveIsWalk(fs: Fs, path: string, cwd: Option<nat>)
    ensures Resolve(fs, path, cwd) == Walk(fs, Start(fs, path, cwd), Comps(path))
  {
    CompsSkip(path);
    ResolveFromIsWalk(fs, Start(fs, path, cwd), if path != "" && path[0] == '/' then SkipSlashes(path) else path);
  }

  lemma {:induction false} WalkAppend(fs: Fs, cur: nat, a: seq<string>, b: seq<string>)
    ensures Walk(fs, cur, a + b) == var m := Walk(fs, cur, a); if m.None? then None else Walk(fs, m.value, b)
    decreases |a|
  {
    if a == [] {
      assert a + b == b;
    } else {
      var next := Enter(fs, cur, a[0]);
      assert (a + b)[1..] == a[1..] + b;
      if next.Some? { WalkAppend(fs, next.value, a[1..], b); }
    }
  }

  /** The last step of a walk to a proper name is a look-up. */
  lemma WalkLast(fs: Fs, cur: nat, cs: seq<string>, name: string)
    requires !Improper(name) && |name| <= NAME_MAX
    ensures Walk(fs, cur, cs + [name]) == var m := Walk(fs, cur, cs); if m.None? then None else FindChild(fs, m.value, name)
  {
    WalkAppend(fs, cur, cs, [name]);
    var m := Walk(fs, cur, cs);
    if m.Some? {
      assert Enter(fs, m.value, name) == FindChild(fs, m.value, name);
      assert [name][1..] == [];
    }
  }

  lemma ParentIsWalk(fs: Fs, path: string, cwd: Option<nat>, q: string, k: nat)
    requires path != "" && |path| < PATH_MAX && q == Strip(path) && k == AfterSlash(q)
    ensures var r := ResolveParent(fs, path, cwd);
            var m := Walk(fs, Start(fs, path, cwd), if k == 0 then [] else Comps(q[..k - 1]));
            if m.None? then r.None? else r.Some? && r.value.0 == m.value && (|q| - k <= NAME_MAX ==> r.value.1 == q[k..])
  {
    if k > 1 {
      ResolveIsWalk(fs, q[..k - 1], cwd);
      assert q[..k - 1][0] == q[0];
    } else if k == 1 {
      assert q[..0] == "" && q[0] == '/';
    }
  }

  /** Resolving a path is resolving its parent and looking up its last name. */
  lemma SplitLaw(fs: Fs, path: string, cwd: Option<nat>)
    requires path != "" && |path| < PATH_MAX && !Improper(LastName(path)) && |LastName(path)| <= NAME_MAX
    ensures var r := ResolveParent(fs, path, cwd);
            && Resolve(fs, path, cwd) == (if r.None? then None else FindChild(fs, r.value.0, r.value.1))
            && (r.Some? ==> r.value.1 == LastName(path))
  {
    var q, name := Strip(path), LastName(path);
    var k := AfterSlash(q);
    var before := if k == 0 then [] else Comps(q[..k - 1]);
    ResolveIsWalk(fs, path, cwd);
    assert Comps(path) == before + [name] by { CompsLast(path); assert q[0..] == q; }
    WalkLast(fs, Start(fs, path, cwd), before, name);
    ParentIsWalk(fs, path, cwd, q, k);
  }

  // ---------------------------------------------------------------------------------------
  // The tree
  // ---------------------------------------------------------------------------------------

  /** The node has its place: in its parent, which is older; its children know it, and no two of
      them are the same or have the same name. Only directories have children. */
  ghost predicate NodeOk(fs: Fs, n: nat)
    requires n in fs.nodes
  {
    var x := fs.nodes[n];
    && (if n == fs.root then x.parent.None? else
        x.parent.Some? && x.parent.value < n && x.parent.value in fs.nodes && n in fs.nodes[x.parent.value].children)
    && (x.kind != Dir ==> x.children == [])
    && (forall i :: 0 <= i < |x.children| ==> x.children[i] in fs.nodes && fs.nodes[x.children[i]].parent == Some(n))
    && (forall i, j :: 0 <= i < j < |x.children| ==> fs.nodes[x.children[i]].name != fs.nodes[x.children[j]].name)
  }

  ghost predicate TreeOk(fs: Fs) {
    && IsDir(fs, fs.root)
    && (forall n :: n in fs.nodes ==> n < fs.next)
    && (forall n {:trigger NodeOk(fs, n)} :: n in fs.nodes ==> NodeOk(fs, n))
  }

  lemma {:induction false} FindInUnique(fs: Fs, kids: seq<nat>, i: nat)
    requires i < |kids| && kids[i] in fs.nodes
    requires forall j :: 0 <= j < i && kids[j] in fs.nodes ==> fs.nodes[kids[j]].name != fs.nodes[kids[i]].name
    ensures FindIn(fs, kids, fs.nodes[kids[i]].name) == Some(kids[i])
    decreases |kids|
  {
    if i > 0 { FindInUnique(fs, kids[1..], i - 1); }
  }

  /** In a tree a node is found under its name in its parent. */
  lemma ChildFound(fs: Fs, n: nat)
    requires TreeOk(fs) && n in fs.nodes && n != fs.root
    ensures fs.nodes[n].parent.Some? && FindChild(fs, fs.nodes[n].parent.value, fs.nodes[n].name) == Some(n)
  {
    assert NodeOk(fs, n);
    var p := fs.nodes[n].parent.value;
    assert NodeOk(fs, p);
    var i :| 0 <= i < |fs.nodes[p].children| && fs.nodes[p].children[i] == n;
    FindInUnique(fs, fs.nodes[p].children, i);
  }

  lemma {:induction false} FindInSame(fs: Fs, gs: Fs, kids: seq<nat>, name: string)
    requires forall k :: k in kids ==> Named(fs, k, name) == Named(gs, k, name)
    ensures FindIn(fs, kids, name) == FindIn(gs, kids, name)
    decreases |kids|
  {
    if kids != [] { FindInSame(fs, gs, kids[1..], name); }
  }

  /** A new child changes one look-up: that of its own name in its directory. */
  lemma AddFinds(fs: Fs, d: nat, node: Node, e: nat, name: string)
    requires TreeOk(fs) && AddChild(fs, d, node).1 && node.children == []
    ensures FindChild(AddChild(fs, d, node).0, e, name) ==
            if e == d && name == node.name then Some(fs.next) else FindChild(fs, e, name)
  {
    var gs := AddChild(fs, d, node).0;
    assert NodeOk(fs, d);
    if e in fs.nodes {
      assert NodeOk(fs, e);
      var kids := fs.nodes[e].children;
      forall k | k in kids ensures Named(fs, k, name) == Named(gs, k, name) { assert k in fs.nodes; }
      FindInSame(fs, gs, kids, name);
      if e == d { assert ([fs.next] + kids)[1..] == kids; }
    }
  }

  lemma AddDirOk(fs: Fs, d: nat, node: Node)
    requires TreeOk(fs) && AddChild(fs, d, node).1 && node.children == []
    ensures NodeOk(AddChild(fs, d, node).0, d)
  {
    var gs := AddChild(fs, d, node).0;
    assert NodeOk(fs, d);
    var was, kids := fs.nodes[d].children, gs.nodes[d].children;
    assert forall i :: 0 < i < |kids| ==> kids[i] == was[i - 1];
    forall j | 0 < j < |kids| ensures gs.nodes[kids[j]].name != node.name { assert !Named(fs, kids[j], node.name); }
  }

  lemma AddOtherOk(fs: Fs, d: nat, node: Node, n: nat)
    requires TreeOk(fs) && AddChild(fs, d, node).1 && node.children == [] && n in fs.nodes && n != d
    ensures NodeOk(AddChild(fs, d, node).0, n)
  {
    var gs := AddChild(fs, d, node).0;
    assert NodeOk(fs, n);
    if n != fs.root && fs.nodes[n].parent == Some(d) {
      var i :| 0 <= i < |fs.nodes[d].children| && fs.nodes[d].children[i] == n;
      assert gs.nodes[d].children[i + 1] == n;
    }
  }

  lemma AddNewOk(fs: Fs, d: nat, node: Node)
    requires TreeOk(fs) && AddChild(fs, d, node).1 && node.children == []
    ensures NodeOk(AddChild(fs, d, node).0, fs.next)
  {
    assert AddChild(fs, d, node).0.nodes[d].children[0] == fs.next;
  }

  lemma AddNodeOk(fs: Fs, d: nat, node: Node, n: nat)
    requires TreeOk(fs) && AddChild(fs, d, node).1 && node.children == [] && n in AddChild(fs, d, node).0.nodes
    ensures NodeOk(AddChild(fs, d, node).0, n)
  {
    if n == d { AddDirOk(fs, d, node); } else if n in fs.nodes { AddOtherOk(fs, d, node, n); } else { AddNewOk(fs, d, node); }
  }

  lemma AddKeepsTree(fs: Fs, d: nat, node: Node)
    requires TreeOk(fs) && AddChild(fs, d, node).1 && node.children == []
    ensures TreeOk(AddChild(fs, d, node).0)
  {
    forall n | n in AddChild(fs, d, node).0.nodes ensures NodeOk(AddChild(fs, d, node).0, n) { AddNodeOk(fs, d, node, n); }
  }

  lemma {:induction false} WalkKept(fs: Fs, d: nat, node: Node, cur: nat, cs: seq<string>)
    requires TreeOk(fs) && AddChild(fs, d, node).1 && node.children == [] && cur in fs.nodes
    requires Walk(fs, cur, cs).Some?
    ensures Walk(AddChild(fs, d, node).0, cur, cs) == Walk(fs, cur, cs)
    decreases |cs|
  {
    if cs != [] {
      EnterStays(fs, cur, cs[0]);
      AddFinds(fs, d, node, cur, cs[0]);
      WalkKept(fs, d, node, Enter(fs, cur, cs[0]).value, cs[1..]);
    }
  }

  /** A component leads from a node of the tree to a node of the tree. */
  lemma EnterStays(fs: Fs, cur: nat, seg: string)
    requires TreeOk(fs) && cur in fs.nodes
    ensures var r := Enter(fs, cur, seg); r.Some? ==> r.value in fs.nodes
  {
    assert NodeOk(fs, cur);
  }

  lemma {:induction false} WalkStays(fs: Fs, cur: nat, cs: seq<string>)
    requires TreeOk(fs) && cur in fs.nodes
    ensures var r := Walk(fs, cur, cs); r.Some? ==> r.value in fs.nodes
    decreases |cs|
  {
    if cs != [] {
      EnterStays(fs, cur, cs[0]);
      if Enter(fs, cur, cs[0]).Some? { WalkStays(fs, Enter(fs, cur, cs[0]).value, cs[1..]); }
    }
  }

  // ---------------------------------------------------------------------------------------
  // Create and unlink
  // ---------------------------------------------------------------------------------------

  predicate In(fs: Fs, cwd: Option<nat>) { cwd.Some? ==> cwd.value in fs.nodes }

  /** A create keeps the tree and every resolution there was. */
  lemma CreateKeeps(fs: Fs, path: string, cwd: Option<nat>, kind: Kind, memoryOk: bool, q: string, from: Option<nat>)
    requires TreeOk(fs) && In(fs, from)
    ensures var (gs, r) := Create(fs, path, cwd, kind, memoryOk);
            && TreeOk(gs) && (r.None? ==> gs == fs)
            && (Resolve(fs, q, from).Some? ==> Resolve(gs, q, from) == Resolve(fs, q, from))
  {
    var (gs, r) := Create(fs, path, cwd, kind, memoryOk);
    if r.Some? {
      var (d, name) := ResolveParent(fs, path, cwd).value;
      var node := NewNode(name, kind, Memfs, 0, 0);
      AddKeepsTree(fs, d, node);
      ResolveIsWalk(fs, q, from);
      ResolveIsWalk(gs, q, from);
      if Resolve(fs, q, from).Some? { WalkKept(fs, d, node, Start(fs, q, from), Comps(q)); }
    }
  }

  lemma {:induction false} ParentKept(fs: Fs, d: nat, node: Node, path: string, cwd: Option<nat>)
    requires TreeOk(fs) && AddChild(fs, d, node).1 && node.children == [] && In(fs, cwd) && ResolveParent(fs, path, cwd).Some?
    ensures ResolveParent(AddChild(fs, d, node).0, path, cwd) == ResolveParent(fs, path, cwd)
  {
    var q := Strip(path);
    var k := AfterSlash(q);
    if k > 1 {
      ResolveIsWalk(fs, q[..k - 1], cwd);
      ResolveIsWalk(AddChild(fs, d, node).0, q[..k - 1], cwd);
      WalkKept(fs, d, node, Start(fs, q[..k - 1], cwd), Comps(q[..k - 1]));
    }
  }

  /** After a successful create the path resolves to the new node exactly when its last name was not
      cut; before, an uncut one did not resolve. */
  lemma CreateResolves(fs: Fs, path: string, cwd: Option<nat>, kind: Kind, memoryOk: bool)
    requires TreeOk(fs) && In(fs, cwd) && Create(fs, path, cwd, kind, memoryOk).1.Some?
    ensures var (gs, r) := Create(fs, path, cwd, kind, memoryOk);
            && (Resolve(gs, path, cwd) == r <==> |LastName(path)| <= NAME_MAX)
            && (|LastName(path)| <= NAME_MAX ==> Resolve(fs, path, cwd).None?)
            && r.value !in fs.nodes && r.value in gs.nodes && gs.nodes[r.value].kind == kind
  {
    var (gs, r) := Create(fs, path, cwd, kind, memoryOk);
    var (d, name) := ResolveParent(fs, path, cwd).value;
    var node := NewNode(name, kind, Memfs, 0, 0);
    var last := LastName(path);
    if |last| <= NAME_MAX {
      ParentIsWalk(fs, path, cwd, Strip(path), AfterSlash(Strip(path)));
      assert name == last;
      SplitLaw(fs, path, cwd);
      SplitLaw(gs, path, cwd);
      ParentKept(fs, d, node, path, cwd);
      AddFinds(fs, d, node, d, name);
    } else {
      LongNameFails(gs, path, cwd);
    }
  }

  /** In a tree with only a root, a file whose name has 256 letters is created, and is not found again. */
  lemma LongNameLost(path: string)
    requires path == seq(256, _ => 'a')
    ensures var fs := Fs(map[0 := NewNode("", Dir, Memfs, 0, 0)], 1, 0);
            && TreeOk(fs) && var (gs, r) := Create(fs, path, None, File, true); r == Some(1) && 1 in gs.nodes && Resolve(gs, path, None).None?
  {
    var fs := Fs(map[0 := NewNode("", Dir, Memfs, 0, 0)], 1, 0);
    assert NodeOk(fs, 0);
    NoSlashes(path);
    var (d, name) := ResolveParent(fs, path, None).value;
    assert d == 0 && name[0] == 'a' && |name| == NAME_MAX;
    CreateResolves(fs, path, None, File, true);
    LongNameFails(Create(fs, path, None, File, true).0, path, None);
  }

  lemma NoSlashes(path: string)
    requires path != "" && '/' !in path
    ensures Strip(path) == path && AfterSlash(path) == 0 && LastName(path) == path
  {
    assert path[|path| - 1] in path;
  }

  /** A last name that is too long never resolves. */
  lemma LongNameFails(fs: Fs, path: string, cwd: Option<nat>)
    requires |LastName(path)| > NAME_MAX
    ensures Resolve(fs, path, cwd).None?
  {
    var q, last := Strip(path), LastName(path);
    var k := AfterSlash(q);
    var before := if k == 0 then [] else Comps(q[..k - 1]);
    assert Comps(path) == before + [last] by { CompsLast(path); assert q[0..] == q; }
    ResolveIsWalk(fs, path, cwd);
    WalkAppend(fs, Start(fs, path, cwd), before, [last]);
    var m := Walk(fs, Start(fs, path, cwd), before);
    if m.Some? { assert Enter(fs, m.value, last).None? && [last][0] == last; }
  }

  lemma {:induction false} RemoveLaw(kids: seq<nat>, c: nat) returns (i: nat)
    requires c in kids
    ensures i < |kids| && kids[i] == c && Remove(kids, c) == kids[..i] + kids[i + 1..]
    decreases |kids|
  {
    if kids[0] == c {
      i := 0;
    } else {
      assert c in kids[1..];
      var j := RemoveLaw(kids[1..], c);
      i := j + 1;
    }
  }

  lemma RemoveRound(kids: seq<nat>, i: nat, c: nat)
    requires i < |kids|
    ensures kids[..i] + Remove(kids[i..], c) ==
            if kids[i] == c then kids[..i] + kids[i + 1..] else kids[..i + 1] + Remove(kids[i + 1..], c)
  {
    assert kids[i..][1..] == kids[i + 1..] && kids[..i + 1] == kids[..i] + [kids[i]];
  }

  /** The tree without node `c` of directory `d`. */
  function Cut(fs: Fs, d: nat, c: nat): Fs
    requires d in fs.nodes
  {
    fs.(nodes := fs.nodes[d := fs.nodes[d].(children := Remove(fs.nodes[d].children, c))] - {c})
  }

  /** The other children of the directory are as they were. */
  lemma CutKid(fs: Fs, d: nat, c: nat, k: nat, i: nat)
    requires TreeOk(fs) && d in fs.nodes && c != d
    requires k < |fs.nodes[d].children| && fs.nodes[d].children[k] == c && i < |fs.nodes[d].children| && i != k
    ensures var n := fs.nodes[d].children[i]; n in fs.nodes && n in Cut(fs, d, c).nodes && Cut(fs, d, c).nodes[n] == fs.nodes[n]
  {
    assert NodeOk(fs, d);
    var n := fs.nodes[d].children[i];
    assert NodeOk(fs, n);
    assert fs.nodes[n].name != fs.nodes[c].name;
  }

  lemma CutDirOk(fs: Fs, d: nat, c: nat)
    requires TreeOk(fs) && d in fs.nodes && c in fs.nodes[d].children && c != d
    ensures NodeOk(Cut(fs, d, c), d)
  {
    assert NodeOk(fs, d) && NodeOk(fs, c);
    var gs, was := Cut(fs, d, c), fs.nodes[d].children;
    var k := RemoveLaw(was, c);
    var kids := gs.nodes[d].children;
    forall i | 0 <= i < |kids|
      ensures var j := if i < k then i else i + 1;
              && kids[i] == was[j] && kids[i] in fs.nodes && kids[i] in gs.nodes
              && gs.nodes[kids[i]] == fs.nodes[was[j]]
    {
      CutKid(fs, d, c, k, if i < k then i else i + 1);
    }
  }

  lemma CutOtherOk(fs: Fs, d: nat, c: nat, n: nat)
    requires TreeOk(fs) && d in fs.nodes && c in fs.nodes[d].children && c in fs.nodes && fs.nodes[c].children == []
    requires n in fs.nodes && n != d && n != c
    ensures NodeOk(Cut(fs, d, c), n)
  {
    assert NodeOk(fs, n) && NodeOk(fs, d);
    var was := fs.nodes[d].children;
    var k := RemoveLaw(was, c);
    if n != fs.root && fs.nodes[n].parent == Some(d) {
      var i :| 0 <= i < |was| && was[i] == n;
      assert Remove(was, c)[if i < k then i else i - 1] == n;
    }
  }

  lemma UnlinkKeepsTree(fs: Fs, path: string, cwd: Option<nat>)
    requires TreeOk(fs)
    ensures var (gs, c) := Unlink(fs, path, cwd);
            && TreeOk(gs) && (c.None? ==> gs == fs)
            && (c.Some? ==> c.value in fs.nodes && c.value !in gs.nodes && c.value != fs.root)
  {
    var (gs, c) := Unlink(fs, path, cwd);
    if c.Some? {
      var (d, name) := ResolveParent(fs, path, cwd).value;
      assert NodeOk(fs, d) && NodeOk(fs, c.value);
      CutDirOk(fs, d, c.value);
      forall n | n in gs.nodes && n != d ensures NodeOk(gs, n) { CutOtherOk(fs, d, c.value, n); }
    }
  }

  /** The walk comes by node `c`. */
  predicate Visits(fs: Fs, cur: nat, cs: seq<string>, c: nat)
    decreases |cs|
  {
    cur == c || (cs != [] && Enter(fs, cur, cs[0]).Some? && Visits(fs, Enter(fs, cur, cs[0]).value, cs[1..], c))
  }

  /** Unlinking a file or an empty directory keeps the tree. Afterwards exactly the paths that came by
      the node that is gone resolve to nothing; all others resolve to what they did. The path given is
      one of the former. */
  lemma UnlinkLaw(fs: Fs, path: string, cwd: Option<nat>, q: string, from: Option<nat>)
    requires TreeOk(fs) && In(fs, from)
    ensures var (gs, c) := Unlink(fs, path, cwd);
            && TreeOk(gs) && (c.None? ==> gs == fs)
            && (c.Some? ==> c.value in fs.nodes && c.value !in gs.nodes && c.value != fs.root)
            && (c.Some? && In(gs, from) ==>
                  Resolve(gs, q, from) == if Visits(fs, Start(fs, q, from), Comps(q), c.value) then None else Resolve(fs, q, from))
            && (c.Some? && In(gs, cwd) && !Improper(LastName(path)) ==> Resolve(gs, path, cwd).None?)
  {
    UnlinkKeepsTree(fs, path, cwd);
    var (gs, c) := Unlink(fs, path, cwd);
    if c.Some? {
      var d := ResolveParent(fs, path, cwd).value.0;
      assert NodeOk(fs, d) && NodeOk(fs, c.value);
      if In(gs, from) {
        ResolveIsWalk(fs, q, from);
        ResolveIsWalk(gs, q, from);
        WalkCut(fs, d, c.value, Start(gs, q, from), Comps(q));
      }
      if In(gs, cwd) && !Improper(LastName(path)) { UnlinkedGone(fs, path, cwd, d, c.value); }
    }
  }

  lemma UnlinkedGone(fs: Fs, path: string, cwd: Option<nat>, d: nat, c: nat)
    requires TreeOk(fs) && Unlink(fs, path, cwd).1 == Some(c)
    requires ResolveParent(fs, path, cwd).value.0 == d && d in fs.nodes && c != d
    requires TreeOk(Cut(fs, d, c)) && In(Cut(fs, d, c), cwd) && !Improper(LastName(path))
    requires Unlink(fs, path, cwd).0 == Cut(fs, d, c) && c != fs.root
    requires c in fs.nodes && NodeOk(fs, c) && fs.nodes[c].parent == Some(d)
    ensures Resolve(Cut(fs, d, c), path, cwd).None?
  {
    var gs := Cut(fs, d, c);
    if |LastName(path)| > NAME_MAX {
      LongNameFails(gs, path, cwd);
    } else {
      SplitLaw(fs, path, cwd);
      ResolveIsWalk(fs, path, cwd);
      ResolveIsWalk(gs, path, cwd);
      WalkCut(fs, d, c, Start(gs, path, cwd), Comps(path));
      VisitsEnd(fs, Start(fs, path, cwd), Comps(path), c);
    }
  }

  lemma {:induction false} VisitsEnd(fs: Fs, cur: nat, cs: seq<string>, c: nat)
    requires Walk(fs, cur, cs) == Some(c)
    ensures Visits(fs, cur, cs, c)
    decreases |cs|
  {
    if cs != [] { VisitsEnd(fs, Enter(fs, cur, cs[0]).value, cs[1..], c); }
  }

  /** After the cut everything is found as before, but the node that is gone. */
  lemma EnterCut(fs: Fs, d: nat, c: nat, cur: nat, seg: string)
    requires TreeOk(fs) && d in fs.nodes && c != d && c in fs.nodes && fs.nodes[c].parent == Some(d) && c != fs.root
    requires TreeOk(Cut(fs, d, c)) && cur in Cut(fs, d, c).nodes
    ensures Enter(Cut(fs, d, c), cur, seg) == if Enter(fs, cur, seg) == Some(c) then None else Enter(fs, cur, seg)
    ensures Enter(Cut(fs, d, c), cur, seg).Some? ==> Enter(Cut(fs, d, c), cur, seg).value in Cut(fs, d, c).nodes
  {
    var gs := Cut(fs, d, c);
    EnterStays(gs, cur, seg);
    EnterStays(fs, cur, seg);
    if seg == "." || seg == ".." {
      assert NodeOk(gs, cur) && NodeOk(fs, cur);
    } else if |seg| <= NAME_MAX {
      FindCut(fs, d, c, cur, seg);
    }
  }

  lemma FindCut(fs: Fs, d: nat, c: nat, cur: nat, seg: string)
    requires TreeOk(fs) && d in fs.nodes && c != d && c in fs.nodes && fs.nodes[c].parent == Some(d) && c != fs.root
    requires TreeOk(Cut(fs, d, c)) && cur in Cut(fs, d, c).nodes
    ensures FindChild(Cut(fs, d, c), cur, seg) == if FindChild(fs, cur, seg) == Some(c) then None else FindChild(fs, cur, seg)
  {
    var gs := Cut(fs, d, c);
    var r, was := FindChild(gs, cur, seg), FindChild(fs, cur, seg);
    assert NodeOk(gs, cur) && NodeOk(fs, cur);
    if r.Some? {
      var n := r.value;
      assert NodeOk(gs, n) && n in fs.nodes[cur].children;
      assert NodeOk(fs, n);
      ChildFound(fs, n);
    } else if was.Some? && was != Some(c) {
      var n := was.value;
      assert NodeOk(fs, n) && n in gs.nodes;
      assert NodeOk(gs, n);
      ChildFound(gs, n);
    }
  }

  lemma {:induction false} WalkCut(fs: Fs, d: nat, c: nat, cur: nat, cs: seq<string>)
    requires TreeOk(fs) && d in fs.nodes && c != d && c in fs.nodes && fs.nodes[c].parent == Some(d) && c != fs.root
    requires TreeOk(Cut(fs, d, c)) && cur in Cut(fs, d, c).nodes
    ensures Walk(Cut(fs, d, c), cur, cs) == if Visits(fs, cur, cs, c) then None else Walk(fs, cur, cs)
    decreases |cs|
  {
    if cs != [] {
      EnterCut(fs, d, c, cur, cs[0]);
      var next := Enter(Cut(fs, d, c), cur, cs[0]);
      if next.Some? { WalkCut(fs, d, c, next.value, cs[1..]); }
    }
  }
}

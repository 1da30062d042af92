/** Dots in paths, and when names can be made and taken away. */
module VfsPaths {
  import opened Basics
  import opened PathNames
  import opened VfsTree
  import opened VfsLaws

  /** One component more behind a slash. */
  lemma OneMore(fs: Fs, path: string, name: string, cwd: Option<nat>)
    requires path != "" && name != "" && '/' !in name
    ensures Resolve(fs, path + "/" + name, cwd) ==
            var m := Resolve(fs, path, cwd); if m.None? then None else Enter(fs, m.value, name)
  {
    var whole := path + "/" + name;
    ResolveIsWalk(fs, whole, cwd);
    ResolveIsWalk(fs, path, cwd);
    CompsSlash(path, name);
    CompsOne(name);
    assert whole[0] == path[0] && Start(fs, whole, cwd) == Start(fs, path, cwd);
    WalkAppend(fs, Start(fs, path, cwd), Comps(path), [name]);
    var m := Resolve(fs, path, cwd);
    if m.Some? { assert [name][1..] == [] && Walk(fs, m.value, [name]) == Enter(fs, m.value, name); }
  }

  /** A dot stays where it is. */
  lemma DotStays(fs: Fs, path: string, cwd: Option<nat>)
    requires path != ""
    ensures Resolve(fs, path + "/.", cwd) == Resolve(fs, path, cwd)
  {
    OneMore(fs, path, ".", cwd);
    assert path + "/" + "." == path + "/.";
  }

  /** Into a directory and out of it again: a path, a name in it and two dots resolve to what the path
      resolves to, and to nothing if the name does not resolve. */
  lemma DotsUndo(fs: Fs, path: string, name: string, cwd: Option<nat>)
    requires TreeOk(fs) && path != "" && !Improper(name) && '/' !in name
    ensures Resolve(fs, path + "/" + name + "/..", cwd) ==
            if Resolve(fs, path + "/" + name, cwd).None? then None else Resolve(fs, path, cwd)
  {
    var inner := path + "/" + name;
    OneMore(fs, path, name, cwd);
    OneMore(fs, inner, "..", cwd);
    assert inner + "/" + ".." == path + "/" + name + "/..";
    var c := Resolve(fs, inner, cwd);
    if c.Some? {
      var d := Resolve(fs, path, cwd).value;
      ChildKnows(fs, d, name, c.value);
    }
  }

  lemma ChildKnows(fs: Fs, d: nat, name: string, c: nat)
    requires TreeOk(fs) && FindChild(fs, d, name) == Some(c)
    ensures c in fs.nodes && fs.nodes[c].parent == Some(d)
  {
    assert NodeOk(fs, d);
    var kids := fs.nodes[d].children;
    var i :| 0 <= i < |kids| && kids[i] == c;
  }

  /** Above the root there is nothing. */
  lemma RootStays(fs: Fs, cwd: Option<nat>)
    requires TreeOk(fs)
    ensures Resolve(fs, "/..", cwd) == Some(fs.root) && Resolve(fs, "/", cwd) == Some(fs.root)
  {
    assert NodeOk(fs, fs.root);
    OneMore(fs, "/", "..", cwd);
    ResolveIsWalk(fs, "/", cwd);
    ResolveIsWalk(fs, "/..", cwd);
    assert Comps("/") == [] && "/.."[1..] == "..";
    CompsOne("..");
    assert Comps("/..") == [".."];
    assert [".."][1..] == [];
  }

  // ---------------------------------------------------------------------------------------
  // Names made and taken away
  // ---------------------------------------------------------------------------------------

  lemma {:induction false} AfterSlashIs(p: string, k: nat)
    requires k <= |p| && '/' !in p[k..] && (k > 0 ==> p[k - 1] == '/')
    ensures AfterSlash(p) == k
  {
    SlashBehind(p, AfterSlash(p), k);
    SlashBehind(p, k, AfterSlash(p));
  }

  lemma SlashBehind(p: string, j: nat, k: nat)
    ensures j < k <= |p| && p[k - 1] == '/' ==> '/' in p[j..]
  {
    if j < k <= |p| { assert p[j..][k - 1 - j] == p[k - 1]; }
  }

  /** The parent of a path is what stands before its last slash. */
  lemma ParentOf(fs: Fs, dir: string, name: string, path: string, cwd: Option<nat>)
    requires dir != "" && !Improper(name) && '/' !in name && |name| <= 255 && path == dir + "/" + name && |path| < 512
    ensures LastName(path) == name
    ensures ResolveParent(fs, path, cwd) ==
            var d := Resolve(fs, dir, cwd); if d.None? then None else Some((d.value, name))
  {
    assert path[|path| - 1] == name[|name| - 1];
    assert name[|name| - 1] in name;
    assert Strip(path) == path;
    var k := |dir| + 1;
    assert path[k..] == name && path[..k - 1] == dir;
    AfterSlashIs(path, k);
    ParentIsWalk(fs, path, cwd, path, k);
    ResolveIsWalk(fs, dir, cwd);
    assert path[0] == dir[0] && Start(fs, path, cwd) == Start(fs, dir, cwd);
  }

  /** A directory of memfs. */
  predicate MemoryDir(fs: Fs, d: Option<nat>) {
    d.Some? && d.value in fs.nodes && fs.nodes[d.value].kind == Dir && fs.nodes[d.value].ops == Memfs
  }

  /** A name is made exactly in a directory of memfs, if it is not there yet and there is memory for it. */
  lemma CreateExact(fs: Fs, dir: string, name: string, path: string, cwd: Option<nat>, kind: Kind, memoryOk: bool)
    requires dir != "" && !Improper(name) && '/' !in name && |name| <= 255 && path == dir + "/" + name && |path| < 512
    ensures Create(fs, path, cwd, kind, memoryOk).1.Some? <==>
            MemoryDir(fs, Resolve(fs, dir, cwd)) && Resolve(fs, path, cwd).None? && memoryOk
  {
    ParentOf(fs, dir, name, path, cwd);
    OneMore(fs, dir, name, cwd);
  }

  /** What is made is a node of that kind and name, empty, the first among the names of its directory; nothing
      else changes. */
  lemma CreateMakes(fs: Fs, dir: string, name: string, path: string, cwd: Option<nat>, kind: Kind, memoryOk: bool)
    requires TreeOk(fs)
    requires dir != "" && !Improper(name) && '/' !in name && |name| <= 255 && path == dir + "/" + name && |path| < 512
    requires Create(fs, path, cwd, kind, memoryOk).1.Some?
    ensures var (gs, r) := Create(fs, path, cwd, kind, memoryOk);
            var d := Resolve(fs, dir, cwd);
            && d.Some? && d.value in fs.nodes && r.value !in fs.nodes && gs.root == fs.root
            && gs.nodes.Keys == fs.nodes.Keys + {r.value}
            && gs.nodes[r.value] == Node(name, kind, Memfs, d, [], 0, 0)
            && gs.nodes[d.value] == fs.nodes[d.value].(children := [r.value] + fs.nodes[d.value].children)
            && forall n :: n in fs.nodes && n != d.value ==> gs.nodes[n] == fs.nodes[n]
  {
    ParentOf(fs, dir, name, path, cwd);
    OneMore(fs, dir, name, cwd);
  }

  /** A name is taken away exactly from a directory of memfs, if it is there and is no directory with names in
      it. */
  lemma UnlinkExact(fs: Fs, dir: string, name: string, path: string, cwd: Option<nat>)
    requires TreeOk(fs) && dir != "" && !Improper(name) && '/' !in name
    requires |name| <= 255 && path == dir + "/" + name && |path| < 512
    ensures var d, c := Resolve(fs, dir, cwd), Resolve(fs, path, cwd);
            var free := c.Some? && c.value in fs.nodes && (fs.nodes[c.value].kind == Dir ==> fs.nodes[c.value].children == []);
            Unlink(fs, path, cwd).1 == if MemoryDir(fs, d) && free then c else None
  {
    ParentOf(fs, dir, name, path, cwd);
    OneMore(fs, dir, name, cwd);
    var d, c := Resolve(fs, dir, cwd), Resolve(fs, path, cwd);
    if d.Some? && c.Some? { ChildKnows(fs, d.value, name, c.value); }
  }

  /** Neither an empty name nor dots can be made, nor anything by a path of 512 characters or more. */
  lemma NeverMade(fs: Fs, path: string, cwd: Option<nat>, kind: Kind, memoryOk: bool)
    requires path == "" || |path| >= 512 || Improper(LastName(path))
    ensures Create(fs, path, cwd, kind, memoryOk) == (fs, None)
  {
    if path != "" && |path| < 512 {
      ParentIsWalk(fs, path, cwd, Strip(path), AfterSlash(Strip(path)));
    }
  }
}

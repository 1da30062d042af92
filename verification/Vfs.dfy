/** src/vfs.c as it runs: paths scanned character by character, nodes linked and removed. */
module Vfs {
  import opened Basics
  import opened PathNames
  import opened VfsTree
  import opened VfsLaws

  class FileSystem {
    var nodes: map<nat, Node>
    var next: nat
    const root: nat
    var cwd: nat

    ghost function State(): Fs
      reads this
    {
      Fs(nodes, next, root)
    }

    ghost predicate Valid()
      reads this
    {
      TreeOk(State()) && cwd in nodes
    }

    /** `memfs_create_root` and `vfs_init` */
    constructor ()
      ensures Valid() && cwd == root && nodes == map[0 := NewNode("", Dir, Memfs, 0, 0)]
    {
      nodes, next, root, cwd := map[0 := NewNode("", Dir, Memfs, 0, 0)], 1, 0, 0;
      new;
      assert NodeOk(State(), 0);
    }

    method FindChild(d: nat, name: string) returns (r: Option<nat>)
      requires TreeOk(State())
      ensures r == VfsTree.FindChild(State(), d, name)
    {
      if d !in nodes || nodes[d].kind != Dir { return None; }
      assert NodeOk(State(), d);
      var kids := nodes[d].children;
      for i := 0 to |kids|
        invariant FindIn(State(), kids[i..], name) == FindIn(State(), kids, name)
      {
        if nodes[kids[i]].name == name { return Some(kids[i]); }
      }
      return None;
    }

    static method SkipFrom(path: string, p: nat) returns (q: nat)
      requires p <= |path|
      ensures p <= q <= |path| && path[q..] == SkipSlashes(path[p..])
    {
      q := p;
      while q < |path| && path[q] == '/'
        invariant p <= q <= |path| && SkipSlashes(path[q..]) == SkipSlashes(path[p..])
      {
        assert path[q..][1..] == path[q + 1..];
        q := q + 1;
      }
    }

    static method ScanName(path: string, p: nat) returns (len: nat)
      requires p <= |path|
      ensures len == SegLen(path[p..]) && p + len <= |path|
    {
      len := 0;
      while p + len < |path| && path[p + len] != '/'
        invariant p + len <= |path| && len + SegLen(path[p + len..]) == SegLen(path[p..])
      {
        assert path[p + len..][1..] == path[p + len + 1..];
        len := len + 1;
      }
    }

    /** One round of the loop of `vfs_resolve`. */
    method Enter(cur: nat, seg: string) returns (r: Option<nat>)
      requires TreeOk(State()) && cur in nodes
      ensures r == VfsTree.Enter(State(), cur, seg) && (r.Some? ==> r.value in nodes)
    {
      EnterStays(State(), cur, seg);
      if seg == "." { return Some(cur); }
      if seg == ".." { return Some(if nodes[cur].parent.Some? then nodes[cur].parent.value else cur); }
      if |seg| > NAME_MAX { return None; }
      r := FindChild(cur, seg);
    }

    method Resolve(path: string, from: Option<nat>) returns (r: Option<nat>)
      requires TreeOk(State()) && In(State(), from)
      ensures r == VfsTree.Resolve(State(), path, from)
    {
      var p, cur := 0, if from.Some? then from.value else root;
      if path != "" && path[0] == '/' {
        cur := root;
        p := SkipFrom(path, 0);
      }
      assert path[0..] == path;
      r := ResolveLoop(path, p, cur);
    }

    method ResolveLoop(path: string, start: nat, at: nat) returns (r: Option<nat>)
      requires TreeOk(State()) && at in nodes && start <= |path| && (start < |path| ==> path[start] != '/')
      ensures r == ResolveFrom(State(), at, path[start..])
    {
      ghost var answer := ResolveFrom(State(), at, path[start..]);
      var p, cur := start, at;
      while p < |path|
        invariant p <= |path| && cur in nodes && (p < |path| ==> path[p] != '/')
        invariant ResolveFrom(State(), cur, path[p..]) == answer
        decreases |path| - p
      {
        var len := ScanName(path, p);
        var n := Enter(cur, path[p..p + len]);
        var q := SkipFrom(path, p + len);
        RoundAt(State(), cur, path, p, len, n, q);
        if n.None? { return None; }
        assert n.value in nodes && (q < |path| ==> path[q] != '/');
        p, cur := q, n.value;
      }
      return Some(cur);
    }

    static method StripTail(path: string) returns (q: string)
      requires path != ""
      ensures q == Strip(path)
    {
      var len := |path|;
      assert path[..len] == path;
      while len > 1 && path[len - 1] == '/'
        invariant 1 <= len <= |path| && Strip(path[..len]) == Strip(path)
      {
        assert path[..len][..len - 1] == path[..len - 1];
        len := len - 1;
      }
      return path[..len];
    }

    static method ScanLast(q: string) returns (k: nat)
      ensures k == AfterSlash(q)
    {
      k := 0;
      for i := 0 to |q|
        invariant k <= i && AfterSlash(q[..i]) == k
      {
        assert q[..i + 1][..i] == q[..i];
        if q[i] == '/' { k := i + 1; }
      }
      assert q[..|q|] == q;
    }

    /** `vfs_resolve_parent` */
    method ResolveParent(path: string, from: Option<nat>) returns (r: Option<(nat, string)>)
      requires TreeOk(State()) && In(State(), from)
      ensures r == VfsTree.ResolveParent(State(), path, from)
    {
      if path == "" || |path| >= PATH_MAX { return None; }
      var q := StripTail(path);
      var k := ScanLast(q);
      var name := if |q| - k > NAME_MAX then q[k..k + NAME_MAX] else q[k..];
      if k == 0 { return Some((if from.Some? then from.value else root, name)); }
      if k == 1 { return Some((root, name)); }
      var d := Resolve(q[..k - 1], from);
      if d.None? { return None; }
      return Some((d.value, name));
    }

    /** `vfs_create` and `vfs_mkdir` with `memfs_create` behind them */
    method Create(path: string, kind: Kind, memoryOk: bool) returns (r: Option<nat>)
      requires Valid()
      modifies `nodes, `next
      ensures Valid() && (State(), r) == VfsTree.Create(old(State()), path, Some(cwd), kind, memoryOk)
    {
      CreateKeeps(State(), path, Some(cwd), kind, memoryOk, "", None);
      var pn := ResolveParent(path, Some(cwd));
      if pn.None? { return None; }
      var (d, name) := pn.value;
      if d !in nodes || nodes[d].kind != Dir || Improper(name) || nodes[d].ops != Memfs { return None; }
      var c := FindChild(d, name);
      if c.Some? || !memoryOk { return None; }
      nodes := nodes[next := NewNode(name, kind, Memfs, 0, 0).(parent := Some(d))]
                    [d := nodes[d].(children := [next] + nodes[d].children)];
      next := next + 1;
      return Some(next - 1);
    }

    /** `vfs_unlink` with `memfs_unlink` behind it. Nothing keeps the working directory from being
        unlinked; it is then no node of the tree. */
    method Unlink(path: string) returns (r: Option<nat>)
      requires Valid()
      modifies `nodes
      ensures TreeOk(State()) && (State(), r) == VfsTree.Unlink(old(State()), path, Some(cwd))
      ensures Valid() <==> !Unlinks(old(State()), path, Some(cwd), cwd)
    {
      UnlinkLaw(State(), path, Some(cwd), "", None);
      var pn := ResolveParent(path, Some(cwd));
      if pn.None? { return None; }
      var (d, name) := pn.value;
      if d !in nodes || nodes[d].kind != Dir || nodes[d].ops != Memfs { return None; }
      var c := FindChild(d, name);
      if c.None? || (nodes[c.value].kind == Dir && nodes[c.value].children != []) { return None; }
      var kids := RemoveFrom(nodes[d].children, c.value);
      nodes := nodes[d := nodes[d].(children := kids)] - {c.value};
      return c;
    }

    /** The loop of `vfs_remove_child` */
    static method RemoveFrom(kids: seq<nat>, c: nat) returns (r: seq<nat>)
      ensures r == Remove(kids, c)
    {
      for i := 0 to |kids|
        invariant Remove(kids, c) == kids[..i] + Remove(kids[i..], c)
      {
        RemoveRound(kids, i, c);
        if kids[i] == c { return kids[..i] + kids[i + 1..]; }
      }
      return kids;
    }

    /** `vfs_open`: the node of an existing path, or with `creat` of one that is made. A path that
        did not resolve then opens exactly when it could be created and its last name was not cut;
        either way memory for the open file must be had. */
    method Open(path: string, creat: bool, wronly: bool, memoryOk: bool, fileOk: bool) returns (r: Option<nat>)
      requires Valid()
      modifies `nodes, `next
      ensures Valid()
      ensures var was, c := VfsTree.Resolve(old(State()), path, Some(cwd)), VfsTree.Create(old(State()), path, Some(cwd), File, memoryOk);
              if was.Some? || !creat then
                && State() == old(State())
                && r == (if !fileOk || (was.Some? && IsDir(State(), was.value) && wronly) then None else was)
              else
                State() == c.0 && r == (if fileOk && |LastName(path)| <= NAME_MAX then c.1 else None)
    {
      var from := Some(cwd);
      ResolveIsWalk(State(), path, from);
      WalkStays(State(), Start(State(), path, from), Comps(path));
      r := Resolve(path, from);
      if r.None? && creat {
        ghost var fs := State();
        var c := Create(path, File, memoryOk);
        if c.None? { return None; }
        CreateResolves(fs, path, from, File, memoryOk);
        r := Resolve(path, from);
        if |LastName(path)| > NAME_MAX { LongNameFails(State(), path, from); }
      }
      if r.Some? && nodes[r.value].kind == Dir && wronly { return None; }
      if !fileOk { return None; }
    }
  }
}

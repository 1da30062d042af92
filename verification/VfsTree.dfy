/** The node tree of src/vfs.c and the calls that resolve and change it, on values. Nodes are named
    by handles in the order of their allocation. */
module VfsTree {
  import opened Basics
  import opened PathNames

  datatype Kind = Dir | File | Dev

  /** Which table of operations a node has; only those of memfs directories create and unlink. */
  datatype Ops = Memfs | Tarfs | Other

  datatype Node = Node(name: string, kind: Kind, ops: Ops, parent: Option<nat>, children: seq<nat>, data: nat, size: nat)

  datatype Fs = Fs(nodes: map<nat, Node>, next: nat, root: nat)

  function NewNode(name: string, kind: Kind, ops: Ops, data: nat, size: nat): Node {
    Node(name, kind, ops, None, [], data, size)
  }

  predicate IsDir(fs: Fs, d: nat) { d in fs.nodes && fs.nodes[d].kind == Dir }

  predicate Named(fs: Fs, n: nat, name: string) { n in fs.nodes && fs.nodes[n].name == name }

  function FindIn(fs: Fs, kids: seq<nat>, name: string): (r: Option<nat>)
    ensures r.Some? ==> r.value in kids && Named(fs, r.value, name)
    ensures r.None? ==> forall k :: k in kids ==> !Named(fs, k, name)
  {
    if kids == [] then None
    else if Named(fs, kids[0], name) then Some(kids[0])
    else FindIn(fs, kids[1..], name)
  }

  /** `vfs_find_child` */
  function FindChild(fs: Fs, d: nat, name: string): Option<nat> {
    if IsDir(fs, d) then FindIn(fs, fs.nodes[d].children, name) else None
  }

  /** `vfs_create_node` and `vfs_add_child` */
  function AddChild(fs: Fs, d: nat, node: Node): (Fs, bool) {
    if !IsDir(fs, d) || FindChild(fs, d, node.name).Some? then (fs, false)
    else (Fs(fs.nodes[fs.next := node.(parent := Some(d))][d := fs.nodes[d].(children := [fs.next] + fs.nodes[d].children)],
             fs.next + 1, fs.root), true)
  }

  /** One component of `vfs_resolve`. */
  function Enter(fs: Fs, cur: nat, seg: string): Option<nat> {
    if seg == "." then Some(cur)
    else if seg == ".." then Some(if cur in fs.nodes && fs.nodes[cur].parent.Some? then fs.nodes[cur].parent.value else cur)
    else if |seg| > NAME_MAX then None
    else FindChild(fs, cur, seg)
  }

  /** The loop of `vfs_resolve` at node `cur` with `p` to go. */
  function ResolveFrom(fs: Fs, cur: nat, p: string): Option<nat>
    decreases |p|
  {
    if p == "" then Some(cur) else
    var len := SegLen(p);
    var next := if len == 0 then Some(cur) else Enter(fs, cur, p[..len]);
    if next.None? then None
    else if len == 0 then ResolveFrom(fs, next.value, SkipSlashes(p[1..]))
    else ResolveFrom(fs, next.value, SkipSlashes(p[len..]))
  }

  function Start(fs: Fs, path: string, cwd: Option<nat>): nat {
    if path != "" && path[0] == '/' then fs.root else if cwd.Some? then cwd.value else fs.root
  }

  /** `vfs_resolve` */
  function Resolve(fs: Fs, path: string, cwd: Option<nat>): Option<nat> {
    ResolveFrom(fs, Start(fs, path, cwd), if path != "" && path[0] == '/' then SkipSlashes(path) else path)
  }

  /** `vfs_resolve_parent`: the parent and the name, cut to 255 characters. */
  function ResolveParent(fs: Fs, path: string, cwd: Option<nat>): Option<(nat, string)> {
    if path == "" || |path| >= PATH_MAX then None else
    var q := Strip(path);
    var k := AfterSlash(q);
    var name := if |q| - k > NAME_MAX then q[k..k + NAME_MAX] else q[k..];
    if k == 0 then Some((Start(fs, "", cwd), name))
    else if k == 1 then Some((fs.root, name))
    else
      var d := Resolve(fs, q[..k - 1], cwd);
      if d.None? then None else Some((d.value, name))
  }

  predicate Improper(name: string) { name == "" || name == "." || name == ".." }

  /** `vfs_create` and `vfs_mkdir` over memfs; whether the node could be had is an input. The result
      is the new node. */
  function Create(fs: Fs, path: string, cwd: Option<nat>, kind: Kind, memoryOk: bool): (Fs, Option<nat>) {
    var r := ResolveParent(fs, path, cwd);
    if r.None? then (fs, None) else
    var (d, name) := r.value;
    if !IsDir(fs, d) || Improper(name) || fs.nodes[d].ops != Memfs || FindChild(fs, d, name).Some? || !memoryOk then (fs, None)
    else (AddChild(fs, d, NewNode(name, kind, Memfs, 0, 0)).0, Some(fs.next))
  }

  function Remove(kids: seq<nat>, c: nat): (r: seq<nat>)
    ensures forall k :: k in r ==> k in kids
  {
    if kids == [] then [] else if kids[0] == c then kids[1..] else [kids[0]] + Remove(kids[1..], c)
  }

  /** Node `n` is the one that parent and name of the path lead to, and it can be unlinked there. */
  predicate Unlinks(fs: Fs, path: string, cwd: Option<nat>, n: nat) {
    var r := ResolveParent(fs, path, cwd);
    && r.Some? && IsDir(fs, r.value.0) && fs.nodes[r.value.0].ops == Memfs && FindChild(fs, r.value.0, r.value.1) == Some(n)
    && !(IsDir(fs, n) && fs.nodes[n].children != [])
  }

  /** `vfs_unlink` over memfs: the node that is gone, if any. */
  function Unlink(fs: Fs, path: string, cwd: Option<nat>): (Fs, Option<nat>) {
    var r := ResolveParent(fs, path, cwd);
    if r.None? then (fs, None) else
    var (d, name) := r.value;
    if !IsDir(fs, d) || fs.nodes[d].ops != Memfs then (fs, None) else
    var c := FindChild(fs, d, name);
    if c.None? || (fs.nodes[c.value].kind == Dir && fs.nodes[c.value].children != []) then (fs, None)
    else (fs.(nodes := fs.nodes[d := fs.nodes[d].(children := Remove(fs.nodes[d].children, c.value))] - {c.value}), c)
  }
}

/** The new image of `SYS_execve`: a space, the segments of the file and a stack, or nothing at all. */
module Exec {
  import opened Basics
  import opened Align
  import opened Paging
  import opened PageTree
  import opened Spaces
  import opened PageRuns
  import opened Contents
  import opened SpaceTable
  import opened SpaceLife
  import opened StackOps
  import opened UserReach
  import opened RunReach
  import opened ElfFile
  import opened ElfOps
  import opened ElfLaws
  import opened ElfImages
  import Pmm

  datatype NewImage = NewImage(root: nat, entry: U64, brk: U64)

  /** The part of `SYS_execve` between the reading of the file and the hand-over. */
  function Prepare(vm: Vm, kernel: nat, image: seq<bv8>): (Vm, Option<NewImage>)
    requires NoWrap(image)
  {
    var made := CreateSpace(vm, kernel);
    var root := made.1;
    if root == 0 then (made.0, None) else
    var loaded := LoadImage(made.0.phys, root, image);
    if loaded.1.None? then (ReleaseSpace(Vm(loaded.0, made.0.table), root, kernel), None) else
    var stack := GiveStack(loaded.0, root);
    if !stack.1 then (ReleaseSpace(Vm(stack.0, made.0.table), root, kernel), None)
    else (Vm(stack.0, made.0.table), Some(NewImage(root, loaded.1.value.0, loaded.1.value.1)))
  }

  /** A frame for the root table and a slot in the table of spaces can be had, the image can be loaded into
      the empty space, and in the space as it then is the stack fits. */
  ghost predicate Preparable(vm: Vm, kernel: nat, image: seq<bv8>)
    requires NoWrap(image)
  {
    var (made, root) := CreateSpace(vm, kernel);
    && Pmm.CountFree(vm.phys.used) > 0 && (exists i :: 0 <= i < |vm.table| && vm.table[i].refs == 0)
    && Loadable(made.phys, root, image) && StackFits(LoadImage(made.phys, root, image).0, root)
  }

  /** The same frames in use with the same contents, and the same references. */
  ghost predicate Unchanged(vm: Vm, w: Vm) {
    && w.phys.used == vm.phys.used && |w.phys.mem| == |vm.phys.mem|
    && (forall f: nat :: f < |vm.phys.mem| && f < |vm.phys.used| && vm.phys.used[f] ==> w.phys.mem[f] == vm.phys.mem[f])
    && (forall d: nat :: Refs(w.table, d) == Refs(vm.table, d))
  }

  /** The view is the segments of the file and a zeroed stack, and nothing else. */
  ghost predicate JustTheImage(c: View, image: seq<bv8>)
    requires NoWrap(image) && Accepted(image)
  {
    var ph, bias := Headers(image), LoadBias(ReadEhdr(image));
    && AllHeld(c, image, ph, bias, |ph|)
    && (forall v: nat :: InRun(v, STACK_PAGE, USTACK_PAGES) ==> v in c && c[v] == ZeroPage().bytes)
    && (forall v: nat :: v in c ==> InRun(v, STACK_PAGE, USTACK_PAGES) || exists i :: 0 <= i < |ph| && InSegment(ph, bias, i, v))
  }

  /** What user code may do in the new space: to the segments what the file asks for, to the stack anything;
      and it reaches every page. */
  ghost predicate Usable(mem: seq<Frame>, root: nat, image: seq<bv8>)
    requires NoWrap(image) && Accepted(image)
  {
    && GrantedByFile(PageMap(mem, root), image) && AllReached(mem, root)
    && forall v: nat :: InRun(v, STACK_PAGE, USTACK_PAGES) ==> v in PageMap(mem, root) && Grants(PageMap(mem, root)[v], true, true)
  }

  lemma StackGranted(m: map<nat, Entry>, ds: seq<nat>, image: seq<bv8>)
    requires NoWrap(image) && Accepted(image) && GrantedByFile(m, image) && |ds| == USTACK_PAGES && Vacant(m, STACK_PAGE, |ds|)
    ensures var m' := Extend(m, STACK_PAGE, ds, STACK_FLAGS);
            && GrantedByFile(m', image)
            && forall v: nat :: InRun(v, STACK_PAGE, USTACK_PAGES) ==> v in m' && Grants(m'[v], true, true)
  {
    forall v: nat
      ensures var m' := Extend(m, STACK_PAGE, ds, STACK_FLAGS);
              && (v in m ==> v in m' && m'[v] == m[v])
              && (InRun(v, STACK_PAGE, USTACK_PAGES) ==> v in m' && Grants(m'[v], true, true))
    {
      ExtendAt(m, STACK_PAGE, ds, STACK_FLAGS, v);
    }
  }

  /** A space that came after `s` and of which nothing is left. */
  lemma Vanished(s: Phys, roles: Roles, z: Phys, x: Roles, rest: Roles, root: nat)
    requires Inv(s, roles) && root !in roles && rest == Without(x, root) && Inv(z, rest) && OnlySpace(s, roles, z, rest, root)
    ensures rest == roles && z.used == s.used && |z.mem| == |s.mem|
    ensures forall f: nat :: f < |s.mem| && f < |s.used| && s.used[f] ==> z.mem[f] == s.mem[f]
  {
    forall f | f in roles ensures roles[f].root != root { assert FrameOk(s.mem, roles, f); }
    assert rest == roles by { forall f ensures f in rest <==> f in roles {} }
    forall f: nat
      ensures ElsewhereUsed(s, roles, root, f) <==> f < |s.used| && s.used[f]
      ensures ElsewhereUsed(z, rest, root, f) <==> f < |z.used| && z.used[f]
    {
    }
    assert forall f :: 0 <= f < |s.used| ==> z.used[f] == s.used[f];
  }

  /** The references after a space was made. */
  lemma MadeRefs(vm: Vm, roles: Roles, kernel: nat, d: nat)
    requires VmInv(vm, roles, kernel)
    ensures var (w, root) := CreateSpace(vm, kernel);
            Refs(w.table, d) == if root != 0 && d == root then 1 else Refs(vm.table, d)
  {
    var made := CreateSpaceStep(vm, roles, kernel);
    var f := CreateRoot(vm.phys, kernel).1;
    if f != 0 {
      var made' := CreateRootStep(vm.phys, roles, kernel);
      assert !IsRoot(roles, f);
      RegisterLaw(vm.table, f, d);
    }
  }

  /** The one reference to a new space goes, in whatever state `t` it was left: nothing remains. */
  lemma LeavesNothing(vm: Vm, roles: Roles, kernel: nat, table: Table, root: nat, t: Phys, x: Roles, z: Phys, rest: Roles, w: Vm)
    requires VmInv(vm, roles, kernel) && root !in roles && root != 0 && root != kernel && Distinct(table)
    requires forall d: nat :: Refs(table, d) == if d == root then 1 else Refs(vm.table, d)
    requires z == Destroy(t, root) && rest == Without(x, root) && Inv(z, rest) && OnlySpace(vm.phys, roles, z, rest, root)
    requires w == ReleaseSpace(Vm(t, table), root, kernel)
    ensures VmInv(w, roles, kernel) && Unchanged(vm, w)
  {
    Vanished(vm.phys, roles, z, x, rest, root);
    assert !IsRoot(roles, root);
    ReleaseLaw(table, root, kernel, root);
    forall d: nat ensures Refs(w.table, d) == Refs(vm.table, d) { ReleaseLaw(table, root, kernel, d); }
  }

  lemma MadeExact(vm: Vm, roles: Roles, kernel: nat)
    requires VmInv(vm, roles, kernel)
    ensures CreateSpace(vm, kernel).1 != 0 <==> Pmm.CountFree(vm.phys.used) > 0 && exists i :: 0 <= i < |vm.table| && vm.table[i].refs == 0
  {
    var f := CreateRoot(vm.phys, kernel).1;
    var made := CreateRootStep(vm.phys, roles, kernel);
    if f != 0 {
      assert !IsRoot(roles, f);
      RegisterLaw(vm.table, f, f);
    }
  }

  lemma MadeSpace(vm: Vm, roles: Roles, kernel: nat, w: Vm, root: nat) returns (made: Roles)
    requires VmInv(vm, roles, kernel) && (w, root) == CreateSpace(vm, kernel)
    ensures root == 0 ==> VmInv(w, roles, kernel) && Unchanged(vm, w)
    ensures root != 0 ==> && VmInv(w, made, kernel) && OnlySpace(vm.phys, roles, w.phys, made, root) && root !in roles && IsRoot(made, root)
                          && root != kernel && ViewOf(w.phys, root) == map[] && AllOpen(w.phys.mem, root)
    ensures forall d: nat :: Refs(w.table, d) == if root != 0 && d == root then 1 else Refs(vm.table, d)
    ensures root != 0 <==> Pmm.CountFree(vm.phys.used) > 0 && exists i :: 0 <= i < |vm.table| && vm.table[i].refs == 0
  {
    made := CreateSpaceStep(vm, roles, kernel);
    MadeExact(vm, roles, kernel);
    if root != 0 { NewRootOpen(vm.phys, roles, kernel); }
    forall d: nat ensures Refs(w.table, d) == if root != 0 && d == root then 1 else Refs(vm.table, d) { MadeRefs(vm, roles, kernel, d); }
    if root == 0 {
      forall f: nat | f < |vm.phys.used| && vm.phys.used[f] ensures ElsewhereUsed(vm.phys, roles, 0, f) { NoRootZero(vm.phys, roles, f); }
    }
  }

  lemma NoRootZero(s: Phys, roles: Roles, f: nat)
    requires Inv(s, roles)
    ensures !Of(roles, f, 0)
  {
    if f in roles {
      assert FrameOk(s.mem, roles, f) && FrameOk(s.mem, roles, roles[f].root);
    }
  }

  lemma StackAdded(c0: View, c: View, image: seq<bv8>)
    requires NoWrap(image) && Accepted(image) && ZeroAdded(c0, c, STACK_PAGE, USTACK_PAGES)
    requires var ph, bias := Headers(image), LoadBias(ReadEhdr(image));
             AllHeld(c0, image, ph, bias, |ph|) && OnlySegments(map[], c0, ph, bias, |ph|)
    ensures JustTheImage(c, image)
  {
    var ph, bias := Headers(image), LoadBias(ReadEhdr(image));
    forall i | 0 <= i < |ph| && ph[i].kind == PT_LOAD ensures Holds(c, image, ph[i], FirstPage(ph[i], bias), SegmentPages(ph[i], bias)) {}
    forall v: nat | v in c && !InRun(v, STACK_PAGE, USTACK_PAGES) ensures exists i :: 0 <= i < |ph| && InSegment(ph, bias, i, v) {
      assert v in c0;
    }
  }

  /** From a file that is in order: the new image can be had exactly if it is preparable. If so, it is the
      segments of the file and a zeroed stack in a space of its own with one reference, to be used as the
      file asks, and no other space has changed. If not, the frames in use, what is in them and all references are what they were. */
  lemma PrepareLaw(vm: Vm, roles: Roles, kernel: nat, image: seq<bv8>, w: Vm, r: Option<NewImage>) returns (after: Roles)
    requires VmInv(vm, roles, kernel) && ProperImage(image) && (w, r) == Prepare(vm, kernel, image)
    ensures VmInv(w, after, kernel)
    ensures r.Some? <==> Preparable(vm, kernel, image)
    ensures r.None? ==> after == roles && Unchanged(vm, w)
    ensures r.Some? ==>
              && r.value.root !in roles && IsRoot(after, r.value.root) && OnlySpace(vm.phys, roles, w.phys, after, r.value.root)
              && (forall d: nat :: Refs(w.table, d) == if d == r.value.root then 1 else Refs(vm.table, d))
              && Accepted(image) && JustTheImage(ViewOf(w.phys, r.value.root), image)
              && Usable(w.phys.mem, r.value.root, image)
              && r.value.entry == Add64(ReadEhdr(image).entry, LoadBias(ReadEhdr(image)))
              && BreakAfter(Headers(image), LoadBias(ReadEhdr(image)), |Headers(image)|, r.value.brk)
  {
    var (made, root) := CreateSpace(vm, kernel);
    var r1 := MadeSpace(vm, roles, kernel, made, root);
    after := roles;
    if root != 0 {
      var (t, l) := LoadImage(made.phys, root, image);
      var r2 := LoadLaw(made.phys, r1, root, image, t, l);
      OnlySpaceTrans(vm.phys, roles, made.phys, r1, t, r2, root);
      if l.None? {
        DestroyStep(t, r2, root);
        var z, rest := Destroy(t, root), Without(r2, root);
        OnlySpaceTrans(vm.phys, roles, t, r2, z, rest, root);
        LeavesNothing(vm, roles, kernel, made.table, root, t, r2, z, rest, w);
      } else {
        after := WithStack(vm, roles, kernel, image, made, root, t, r2, l.value, w, r);
      }
    }
  }

  lemma WithStack(vm: Vm, roles: Roles, kernel: nat, image: seq<bv8>, made: Vm, root: nat, t: Phys, r2: Roles, l: (U64, U64),
                  w: Vm, r: Option<NewImage>) returns (after: Roles)
    requires VmInv(vm, roles, kernel) && root !in roles && root != 0 && root != kernel && Distinct(made.table)
    requires forall d: nat :: Refs(made.table, d) == if d == root then 1 else Refs(vm.table, d)
    requires Inv(t, r2) && IsRoot(r2, root) && OnlySpace(vm.phys, roles, t, r2, root)
    requires NoWrap(image) && Accepted(image) && var ph, bias := Headers(image), LoadBias(ReadEhdr(image));
             AllHeld(ViewOf(t, root), image, ph, bias, |ph|) && OnlySegments(map[], ViewOf(t, root), ph, bias, |ph|)
    requires GrantedByFile(PageMap(t.mem, root), image) && AllOpen(t.mem, root)
    requires var (u, ok) := GiveStack(t, root);
             if ok then w == Vm(u, made.table) && r == Some(NewImage(root, l.0, l.1))
             else w == ReleaseSpace(Vm(u, made.table), root, kernel) && r == None
    ensures VmInv(w, after, kernel)
    ensures r.Some? <==> StackFits(t, root)
    ensures r.None? ==> after == roles && Unchanged(vm, w)
    ensures r.Some? ==> && IsRoot(after, root) && OnlySpace(vm.phys, roles, w.phys, after, root) && w.table == made.table
                        && JustTheImage(ViewOf(w.phys, root), image) && r.value == NewImage(root, l.0, l.1)
                        && Usable(w.phys.mem, root, image)
  {
    var (u, ok) := GiveStack(t, root);
    var ds, grown := GiveStackLaw(t, r2, root, u, ok);
    if ok {
      after := grown;
      OnlySpaceTrans(vm.phys, roles, t, r2, u, after, root);
      MappedView(t, r2, u, after, root, STACK_PAGE, ds, STACK_FLAGS);
      StackAdded(ViewOf(t, root), ViewOf(u, root), image);
      StackGranted(PageMap(t.mem, root), ds, image);
      GiveStackOpen(t, r2, root, u, ok);
      AllReachable(u.mem, root);
      AddedSpace(vm, roles, kernel, made.table, root, u, after);
    } else {
      after := roles;
      var z, rest := Destroy(u, root), Without(r2, root);
      GiveStackUndone(t, r2, root, u, ok, z, rest);
      OnlySpaceTrans(vm.phys, roles, t, r2, z, rest, root);
      LeavesNothing(vm, roles, kernel, made.table, root, u, r2, z, rest, w);
    }
  }

  lemma AddedSpace(vm: Vm, roles: Roles, kernel: nat, table: Table, root: nat, u: Phys, after: Roles)
    requires VmInv(vm, roles, kernel) && root !in roles && root != kernel && Distinct(table)
    requires forall d: nat :: Refs(table, d) == if d == root then 1 else Refs(vm.table, d)
    requires Inv(u, after) && IsRoot(after, root) && OnlySpace(vm.phys, roles, u, after, root)
    ensures VmInv(Vm(u, table), after, kernel)
  {
    assert ElsewhereUsed(vm.phys, roles, root, kernel);
    assert ElsewhereUsed(u, after, root, kernel);
    forall d: nat ensures IsRoot(after, d) <==> d == root || IsRoot(roles, d) {
      assert (d in roles ==> FrameOk(vm.phys.mem, roles, d)) && (d in after ==> FrameOk(u.mem, after, d));
    }
  }
}

/** The reference-counted table of user address spaces in src/vmm.c (`g_user_spaces`). */
module SpaceTable {

  const MAX_USER_SPACES: nat := 64

  datatype Space = Space(cr3: nat, refs: nat)

  type Table = seq<Space>

  /** `find_space_slot`: the first live slot of `cr3` at or after `from`, |t| if there is none. */
  function FindSlot(t: Table, cr3: nat, from: nat := 0): (k: nat)
    requires from <= |t|
    ensures from <= k <= |t|
    ensures k < |t| ==> t[k].cr3 == cr3 && t[k].refs > 0
    ensures forall j :: from <= j < k ==> !(t[j].cr3 == cr3 && t[j].refs > 0)
    decreases |t| - from
  {
    if from == |t| || (t[from].cr3 == cr3 && t[from].refs > 0) then from else FindSlot(t, cr3, from + 1)
  }

  /** `find_free_space_slot` */
  function FindFree(t: Table, from: nat := 0): (k: nat)
    requires from <= |t|
    ensures from <= k <= |t|
    ensures k < |t| ==> t[k].refs == 0
    ensures forall j :: from <= j < k ==> t[j].refs > 0
    decreases |t| - from
  {
    if from == |t| || t[from].refs == 0 then from else FindFree(t, from + 1)
  }

  function Refs(t: Table, cr3: nat): nat {
    var k := FindSlot(t, cr3);
    if k < |t| then t[k].refs else 0
  }

  /** No space has two live slots, and frame 0 has none. */
  ghost predicate Distinct(t: Table) {
    && (forall i, j :: 0 <= i < j < |t| && t[i].refs > 0 && t[j].refs > 0 ==> t[i].cr3 != t[j].cr3)
    && (forall i :: 0 <= i < |t| && t[i].refs > 0 ==> t[i].cr3 != 0)
  }

  /** The table half of `vmm_create_user_space`. */
  function Register(t: Table, cr3: nat): (Table, bool) {
    var k := FindFree(t);
    if k < |t| then (t[k := Space(cr3, 1)], true) else (t, false)
  }

  function Retain(t: Table, cr3: nat, kernel: nat): Table {
    if cr3 == 0 || cr3 == kernel then t else
    var k := FindSlot(t, cr3);
    if k < |t| then t[k := Space(cr3, t[k].refs + 1)] else
    var f := FindFree(t);
    if f < |t| then t[f := Space(cr3, 2)] else t
  }

  /** The table after `vmm_release_user_space`, and whether the space is to be torn down. */
  function Release(t: Table, cr3: nat, kernel: nat): (Table, bool) {
    if cr3 == 0 || cr3 == kernel then (t, false) else
    var k := FindSlot(t, cr3);
    if k == |t| then (t, false)
    else if t[k].refs == 1 then (t[k := Space(0, 0)], true)
    else (t[k := Space(cr3, t[k].refs - 1)], false)
  }

  /** In a distinct table a live slot is the one the search finds. */
  lemma SlotOf(t: Table, i: nat)
    requires Distinct(t) && i < |t| && t[i].refs > 0
    ensures FindSlot(t, t[i].cr3) == i && Refs(t, t[i].cr3) == t[i].refs
  {
    var k := FindSlot(t, t[i].cr3);
    assert k <= i;
  }

  /** Setting slot `k` changes the count of the old and of the new space there, and no other. */
  lemma RefsUpdate(t: Table, k: nat, sp: Space, d: nat)
    requires k < |t| && Distinct(t) && Distinct(t[k := sp])
    requires d != sp.cr3 || sp.refs == 0
    requires d != t[k].cr3 || t[k].refs == 0
    ensures Refs(t[k := sp], d) == Refs(t, d)
  {
    var u := t[k := sp];
    var i, j := FindSlot(t, d), FindSlot(u, d);
    if i < |t| { SlotOf(u, i); }
    if j < |t| { SlotOf(t, j); }
  }

  lemma RegisterLaw(t: Table, cr3: nat, d: nat)
    requires Distinct(t) && cr3 != 0 && Refs(t, cr3) == 0
    ensures var (u, ok) := Register(t, cr3);
            && Distinct(u) && |u| == |t|
            && (ok <==> exists i :: 0 <= i < |t| && t[i].refs == 0)
            && Refs(u, d) == if ok && d == cr3 then 1 else Refs(t, d)
  {
    var (u, ok) := Register(t, cr3);
    var k := FindFree(t);
    if ok {
      forall i | 0 <= i < |t| && t[i].refs > 0 ensures t[i].cr3 != cr3 { SlotOf(t, i); }
      if d == cr3 { SlotOf(u, k); } else { RefsUpdate(t, k, Space(cr3, 1), d); }
    }
  }

  /** The null address and the kernel's space are not counted. */
  predicate Counts(cr3: nat, kernel: nat) { cr3 != 0 && cr3 != kernel }

  /** A reference more for a space that has one. A space without any gets two, if there is a slot free:
      one for the holder that was not counted, and one for the new one. */
  lemma RetainLaw(t: Table, cr3: nat, kernel: nat, d: nat)
    requires Distinct(t)
    ensures Refs(t, 0) == 0
    ensures var u := Retain(t, cr3, kernel);
            && Distinct(u) && |u| == |t|
            && Refs(u, d) == Refs(t, d) + if d != cr3 || !Counts(cr3, kernel) then 0 else if Refs(t, cr3) > 0 then 1
                                          else if exists i :: 0 <= i < |t| && t[i].refs == 0 then 2 else 0
  {
    var u := Retain(t, cr3, kernel);
    var k, f := FindSlot(t, cr3), FindFree(t);
    if Counts(cr3, kernel) && k < |t| {
      SlotOf(u, k);
      if d != cr3 { RefsUpdate(t, k, u[k], d); }
    } else if Counts(cr3, kernel) && f < |t| {
      FilledLaw(t, f, cr3, 2, d, u);
    }
  }

  /** A space without references gets `n` of them in a free slot. */
  lemma FilledLaw(t: Table, f: nat, cr3: nat, n: nat, d: nat, u: Table)
    requires Distinct(t) && f < |t| && t[f].refs == 0 && cr3 != 0 && n > 0 && Refs(t, cr3) == 0 && u == t[f := Space(cr3, n)]
    ensures Distinct(u) && Refs(u, d) == if d == cr3 then n else Refs(t, d)
  {
    forall i | 0 <= i < |t| && t[i].refs > 0 ensures t[i].cr3 != cr3 { SlotOf(t, i); }
    if d == cr3 { SlotOf(u, f); } else { RefsUpdate(t, f, u[f], d); }
  }

  /** A release takes one reference away, if there is one, and tears the space down exactly with the
      last one. */
  lemma ReleaseLaw(t: Table, cr3: nat, kernel: nat, d: nat)
    requires Distinct(t)
    ensures Refs(t, 0) == 0
    ensures var (u, last) := Release(t, cr3, kernel);
            && Distinct(u) && |u| == |t|
            && Refs(u, d) == Refs(t, d) - (if d == cr3 && Counts(cr3, kernel) && Refs(t, cr3) > 0 then 1 else 0)
            && (last <==> Counts(cr3, kernel) && Refs(t, cr3) > 0 && Refs(u, cr3) == 0)
  {
    var (u, last) := Release(t, cr3, kernel);
    var k := FindSlot(t, cr3);
    if Counts(cr3, kernel) && k < |t| {
      SlotOf(t, k);
      if last {
        var j := FindSlot(u, cr3);
        if j < |u| { SlotOf(t, j); }
      } else {
        SlotOf(u, k);
      }
      if d != cr3 { RefsUpdate(t, k, u[k], d); }
    }
  }
}

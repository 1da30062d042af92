/** The nesting of interrupt handlers in src/arch/x86_64/irq.c, on values. */
module IrqNesting {

  const IRQ_MAX: nat := 16
  const NEST_LIMIT: nat := 8

  /** One bit per line, true when masked. */
  type Mask = seq<bool>

  datatype Saved = Saved(mask: Mask, priority: nat)

  datatype Irq = Irq(mask: Mask, priority: nat, saved: seq<Saved>)

  predicate Shaped(s: Irq, prios: seq<nat>) {
    |s.mask| == IRQ_MAX == |prios| && forall k :: 0 <= k < |s.saved| ==> |s.saved[k].mask| == IRQ_MAX
  }

  /** The mask in force during a handler of priority `p`. */
  function Raised(mask: Mask, prios: seq<nat>, p: nat): (m: Mask)
    requires |mask| == |prios|
    ensures |m| == |mask| && forall i :: 0 <= i < |mask| ==> m[i] == (mask[i] || prios[i] >= p)
  {
    seq(|mask|, i requires 0 <= i < |mask| => mask[i] || prios[i] >= p)
  }

  /** `irq_enter` */
  function Enter(s: Irq, prios: seq<nat>, irq: nat): Irq
    requires Shaped(s, prios)
  {
    if irq >= IRQ_MAX || |s.saved| >= NEST_LIMIT then s
    else Irq(Raised(s.mask, prios, prios[irq]), prios[irq], s.saved + [Saved(s.mask, s.priority)])
  }

  /** `irq_exit` */
  function Exit(s: Irq): Irq {
    if s.saved == [] then s else
    var top := s.saved[|s.saved| - 1];
    Irq(top.mask, top.priority, s.saved[..|s.saved| - 1])
  }

  /** How many lines are not masked. */
  function Open(mask: Mask): nat {
    if mask == [] then 0 else Open(mask[..|mask| - 1]) + if mask[|mask| - 1] then 0 else 1
  }

  lemma {:induction false} OpenLess(a: Mask, b: Mask)
    requires |a| == |b| && forall i :: 0 <= i < |a| ==> a[i] ==> b[i]
    ensures Open(b) <= Open(a)
    ensures (exists i :: 0 <= i < |a| && !a[i] && b[i]) ==> Open(b) < Open(a)
    decreases |a|
  {
    if a != [] {
      var n := |a| - 1;
      OpenLess(a[..n], b[..n]);
      if i :| 0 <= i < |a| && !a[i] && b[i] {
        if i < n { assert !a[..n][i] && b[..n][i]; }
      }
    }
  }

  /** The mask and priority in force at depth `k`: the saved ones below the top, then the present. */
  function Level(s: Irq, k: nat): Saved
    requires k <= |s.saved|
  {
    if k < |s.saved| then s.saved[k] else Saved(s.mask, s.priority)
  }

  /** From one depth to the next no line is unmasked, the lines from the new priority on are all
      masked, and at least one line is taken. */
  predicate Deeper(a: Saved, b: Saved, prios: seq<nat>)
    requires |a.mask| == |b.mask| == |prios|
  {
    && (forall i :: 0 <= i < |prios| ==> a.mask[i] ==> b.mask[i])
    && (forall i :: 0 <= i < |prios| && prios[i] >= b.priority ==> b.mask[i])
    && Open(b.mask) < Open(a.mask)
  }

  /** Above the outermost handler the priority number falls, too. */
  predicate Step(s: Irq, prios: seq<nat>, k: nat)
    requires Shaped(s, prios) && k < |s.saved|
  {
    Deeper(s.saved[k], Level(s, k + 1), prios) && (k > 0 ==> Level(s, k + 1).priority < s.saved[k].priority)
  }

  ghost predicate Nested(s: Irq, prios: seq<nat>, boot: Mask) {
    && Shaped(s, prios) && Level(s, 0).mask == boot
    && forall k {:trigger Step(s, prios, k)} :: 0 <= k < |s.saved| ==> Step(s, prios, k)
  }

  lemma {:induction false} DepthBound(s: Irq, prios: seq<nat>, boot: Mask, k: nat)
    requires Nested(s, prios, boot) && k <= |s.saved|
    ensures k + Open(Level(s, k).mask) <= Open(boot)
    decreases k
  {
    if k > 0 {
      DepthBound(s, prios, boot, k - 1);
      assert Step(s, prios, k - 1);
    }
  }

  lemma RaisedDeeper(mask: Mask, prios: seq<nat>, irq: nat, p: nat)
    requires |mask| == |prios| && irq < |prios| && !mask[irq]
    ensures Deeper(Saved(mask, p), Saved(Raised(mask, prios, prios[irq]), prios[irq]), prios)
  {
    OpenLess(mask, Raised(mask, prios, prios[irq]));
  }

  /** An interrupt of an unmasked line nests one deeper, and does not meet the limit. */
  lemma EnterNests(s: Irq, prios: seq<nat>, boot: Mask, irq: nat)
    requires Nested(s, prios, boot) && Open(boot) <= NEST_LIMIT && irq < IRQ_MAX && !s.mask[irq]
    ensures |s.saved| < NEST_LIMIT && |Enter(s, prios, irq).saved| == |s.saved| + 1
    ensures Nested(Enter(s, prios, irq), prios, boot)
    ensures s.saved != [] ==> prios[irq] < s.priority
  {
    var n := |s.saved|;
    DepthBound(s, prios, boot, n);
    OpenPositive(s.mask, irq);
    RaisedDeeper(s.mask, prios, irq, s.priority);
    if n > 0 { assert Step(s, prios, n - 1); }
    var t := Enter(s, prios, irq);
    assert Step(t, prios, n);
    forall k | 0 <= k < n ensures Step(t, prios, k) {
      assert Step(s, prios, k) && t.saved[k] == s.saved[k] && Level(t, k + 1) == Level(s, k + 1);
    }
  }

  lemma {:induction false} OpenPositive(mask: Mask, i: nat)
    requires i < |mask| && !mask[i]
    ensures Open(mask) > 0
    decreases |mask|
  {
    if i < |mask| - 1 { OpenPositive(mask[..|mask| - 1], i); }
  }

  lemma ExitNests(s: Irq, prios: seq<nat>, boot: Mask)
    requires Nested(s, prios, boot)
    ensures Nested(Exit(s), prios, boot)
  {
    var t := Exit(s);
    forall k | 0 <= k < |t.saved| ensures Step(t, prios, k) {
      assert Step(s, prios, k) && s.saved[k] == t.saved[k] && Level(t, k + 1) == Level(s, k + 1);
    }
  }

  // ---------------------------------------------------------------------------------------
  // Brackets
  // ---------------------------------------------------------------------------------------

  /** A handler and the handlers that interrupt it, each ending before it. */
  datatype Handler = Handler(irq: nat, inner: seq<Handler>)

  function Serve(s: Irq, prios: seq<nat>, h: Handler): (t: Irq)
    requires Shaped(s, prios)
    ensures Shaped(t, prios)
    decreases h, 0
  {
    Exit(ServeAll(Enter(s, prios, h.irq), prios, h.inner))
  }

  function ServeAll(s: Irq, prios: seq<nat>, hs: seq<Handler>): (t: Irq)
    requires Shaped(s, prios)
    ensures Shaped(t, prios)
    decreases hs, 1
  {
    if hs == [] then s else ServeAll(Serve(s, prios, hs[0]), prios, hs[1..])
  }

  predicate Arrives(s: Irq, prios: seq<nat>, h: Handler)
    requires Shaped(s, prios)
    decreases h, 0
  {
    h.irq < IRQ_MAX && !s.mask[h.irq] && AllArrive(Enter(s, prios, h.irq), prios, h.inner)
  }

  predicate AllArrive(s: Irq, prios: seq<nat>, hs: seq<Handler>)
    requires Shaped(s, prios)
    decreases hs, 1
  {
    hs != [] ==> Arrives(s, prios, hs[0]) && AllArrive(Serve(s, prios, hs[0]), prios, hs[1..])
  }

  /** A handler that is not left before the handlers inside it have ended restores the mask, the
      priority and the stack exactly. */
  lemma {:induction false} ServeRestores(s: Irq, prios: seq<nat>, boot: Mask, h: Handler)
    requires Nested(s, prios, boot) && Open(boot) <= NEST_LIMIT && Arrives(s, prios, h)
    ensures Serve(s, prios, h) == s
    decreases h, 0
  {
    EnterNests(s, prios, boot, h.irq);
    ServeAllRestores(Enter(s, prios, h.irq), prios, boot, h.inner);
  }

  lemma {:induction false} ServeAllRestores(s: Irq, prios: seq<nat>, boot: Mask, hs: seq<Handler>)
    requires Nested(s, prios, boot) && Open(boot) <= NEST_LIMIT && AllArrive(s, prios, hs)
    ensures ServeAll(s, prios, hs) == s
    decreases hs, 1
  {
    if hs != [] {
      ServeRestores(s, prios, boot, hs[0]);
      ServeAllRestores(s, prios, boot, hs[1..]);
    }
  }

  /** An exit restores what the enter at depth `j` saved exactly when that is the innermost. */
  lemma ExitRestoresOwn(s: Irq, prios: seq<nat>, boot: Mask, j: nat)
    requires Nested(s, prios, boot) && j < |s.saved|
    ensures Exit(s).mask == s.saved[j].mask && Exit(s).priority == s.saved[j].priority <==> j == |s.saved| - 1
  {
    if j < |s.saved| - 1 { OpenFalls(s, prios, boot, j, |s.saved| - 1); }
  }

  lemma {:induction false} OpenFalls(s: Irq, prios: seq<nat>, boot: Mask, j: nat, k: nat)
    requires Nested(s, prios, boot) && j < k < |s.saved|
    ensures Open(s.saved[k].mask) < Open(s.saved[j].mask)
    decreases k
  {
    assert Step(s, prios, k - 1);
    if j < k - 1 { OpenFalls(s, prios, boot, j, k - 1); }
  }
}

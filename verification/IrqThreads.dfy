/** Interrupt handlers of several threads over the one stack of masks of src/arch/x86_64/irq.c: a tick
    inside a handler may switch to another thread, which ends its own handlers in its own time. */
module IrqThreads {
  import opened IrqNesting

  /** A handler that has begun and not ended: its thread, and what its own enter saved. */
  datatype Active = Active(thread: nat, own: Saved)

  /** The controller, the current thread, and the active handlers in the order they began. */
  datatype Machine = Machine(irq: Irq, current: nat, active: seq<Active>)

  /** `Tick` is the timer's interrupt, at which the scheduler picks thread `next`; `Resched` the same for
      the other processors' interrupt, which does not go through the controller; `End` the end of the
      current thread's innermost handler. */
  datatype Event = Deliver(line: nat) | Tick(next: nat) | Resched(next: nat) | End

  /** The last of the thread's handlers among the first `n`, or `n` if it has none. */
  function LastOf(active: seq<Active>, thread: nat, n: nat): (k: nat)
    requires n <= |active|
    ensures k <= n
    ensures k < n ==> active[k].thread == thread && forall j :: k < j < n ==> active[j].thread != thread
    ensures k == n ==> forall j :: 0 <= j < n ==> active[j].thread != thread
  {
    if n == 0 then 0
    else if active[n - 1].thread == thread then n - 1
    else var k := LastOf(active, thread, n - 1); if k == n - 1 then n else k
  }

  /** The place of the current thread's innermost handler. */
  function Mine(m: Machine): (k: nat)
    ensures k <= |m.active|
  {
    LastOf(m.active, m.current, |m.active|)
  }

  /** Only lines that are not masked interrupt, the timer's among them; only what has begun can end. */
  predicate Possible(m: Machine, prios: seq<nat>, e: Event)
    requires Shaped(m.irq, prios)
  {
    match e
    case Deliver(line) => 0 < line < IRQ_MAX && !m.irq.mask[line]
    case Tick(_) => !m.irq.mask[0]
    case Resched(_) => true
    case End => Mine(m) < |m.active|
  }

  function Happen(m: Machine, prios: seq<nat>, e: Event): (r: Machine)
    requires Shaped(m.irq, prios) && Possible(m, prios, e)
    ensures Shaped(r.irq, prios)
  {
    match e
    case Deliver(line) =>
      m.(irq := Enter(m.irq, prios, line), active := m.active + [Active(m.current, Saved(m.irq.mask, m.irq.priority))])
    case Tick(next) => m.(irq := Exit(Enter(m.irq, prios, 0)), current := next)
    case Resched(next) => m.(current := next)
    case End => m.(irq := Exit(m.irq), active := m.active[..Mine(m)] + m.active[Mine(m) + 1..])
  }

  // ---------------------------------------------------------------------------------------
  // The depth
  // ---------------------------------------------------------------------------------------

  /** Depths nest, and there are as many entries on the stack as active handlers. */
  ghost predicate Counted(m: Machine, prios: seq<nat>, boot: Mask) {
    Nested(m.irq, prios, boot) && |m.active| == |m.irq.saved|
  }

  /** The timer's handler begins and ends before the switch. */
  lemma TickRestores(s: Irq, prios: seq<nat>, boot: Mask)
    requires Nested(s, prios, boot) && Open(boot) <= NEST_LIMIT && !s.mask[0]
    ensures Exit(Enter(s, prios, 0)) == s
  {
    EnterNests(s, prios, boot, 0);
  }

  lemma StepCounted(m: Machine, prios: seq<nat>, boot: Mask, e: Event)
    requires Counted(m, prios, boot) && Open(boot) <= NEST_LIMIT && Possible(m, prios, e)
    ensures Counted(Happen(m, prios, e), prios, boot)
  {
    match e {
      case Deliver(line) => EnterNests(m.irq, prios, boot, line);
      case Tick(_) => TickRestores(m.irq, prios, boot);
      case Resched(_) =>
      case End => ExitNests(m.irq, prios, boot);
    }
  }

  ghost predicate Runs(m: Machine, prios: seq<nat>, es: seq<Event>)
    decreases |es|
  {
    Shaped(m.irq, prios) && (es != [] ==> Possible(m, prios, es[0]) && Runs(Happen(m, prios, es[0]), prios, es[1..]))
  }

  function Run(m: Machine, prios: seq<nat>, es: seq<Event>): Machine
    requires Runs(m, prios, es)
    decreases |es|
  {
    if es == [] then m else Run(Happen(m, prios, es[0]), prios, es[1..])
  }

  /** Over every run of every number of threads, handlers ending in whatever order, priorities fall with
      the depth, and the depth - the number of active handlers - never exceeds the number of lines open
      at boot: the branch for an overflow of the stack is never taken. */
  lemma {:induction false} EveryRun(m: Machine, prios: seq<nat>, boot: Mask, es: seq<Event>)
    requires Counted(m, prios, boot) && Open(boot) <= NEST_LIMIT && Runs(m, prios, es)
    ensures var r := Run(m, prios, es); Counted(r, prios, boot) && |r.active| <= Open(boot)
    decreases |es|
  {
    if es == [] {
      DepthBound(m.irq, prios, boot, |m.irq.saved|);
    } else {
      StepCounted(m, prios, boot, es[0]);
      EveryRun(Happen(m, prios, es[0]), prios, boot, es[1..]);
    }
  }

  // ---------------------------------------------------------------------------------------
  // Whose entry is restored
  // ---------------------------------------------------------------------------------------

  /** An end brings back the mask and the priority that this handler's own enter saved. */
  predicate RestoresOwn(m: Machine)
    requires Mine(m) < |m.active|
  {
    var own := m.active[Mine(m)].own;
    Exit(m.irq).mask == own.mask && Exit(m.irq).priority == own.priority
  }

  /** The handler that ends is the one that began last of all that are active. */
  predicate Innermost(m: Machine)
    requires Mine(m) < |m.active|
  {
    Mine(m) == |m.active| - 1
  }

  ghost predicate AllRestore(m: Machine, prios: seq<nat>, es: seq<Event>)
    requires Runs(m, prios, es)
    decreases |es|
  {
    es != [] ==> (es[0].End? ==> RestoresOwn(m)) && AllRestore(Happen(m, prios, es[0]), prios, es[1..])
  }

  ghost predicate AllInnermost(m: Machine, prios: seq<nat>, es: seq<Event>)
    requires Runs(m, prios, es)
    decreases |es|
  {
    es != [] ==> (es[0].End? ==> Innermost(m)) && AllInnermost(Happen(m, prios, es[0]), prios, es[1..])
  }

  /** The stack holds what the active handlers' own enters saved, in the order they began. */
  ghost predicate InStep(m: Machine) {
    |m.active| == |m.irq.saved| && forall k :: 0 <= k < |m.active| ==> m.active[k].own == m.irq.saved[k]
  }

  lemma EndExact(m: Machine, prios: seq<nat>, boot: Mask)
    requires Counted(m, prios, boot) && InStep(m) && Mine(m) < |m.active|
    ensures RestoresOwn(m) <==> Innermost(m)
  {
    ExitRestoresOwn(m.irq, prios, boot, Mine(m));
  }

  lemma StaysInStep(m: Machine, prios: seq<nat>, boot: Mask, e: Event)
    requires Counted(m, prios, boot) && InStep(m) && Open(boot) <= NEST_LIMIT && Possible(m, prios, e) && (e.End? ==> Innermost(m))
    ensures InStep(Happen(m, prios, e))
  {
    match e {
      case Deliver(line) => EnterNests(m.irq, prios, boot, line);
      case Tick(_) => TickRestores(m.irq, prios, boot);
      case Resched(_) =>
      case End =>
    }
  }

  /** In every run, every end restores the mask and the priority that the handler's own enter saved
      exactly if handlers end in the reverse of the order they began in, across all threads. */
  lemma {:induction false} RestoresExact(m: Machine, prios: seq<nat>, boot: Mask, es: seq<Event>)
    requires Counted(m, prios, boot) && InStep(m) && Open(boot) <= NEST_LIMIT && Runs(m, prios, es)
    ensures AllRestore(m, prios, es) <==> AllInnermost(m, prios, es)
    decreases |es|
  {
    if es != [] {
      if es[0].End? { EndExact(m, prios, boot); }
      if es[0].End? ==> Innermost(m) {
        StepCounted(m, prios, boot, es[0]);
        StaysInStep(m, prios, boot, es[0]);
        RestoresExact(Happen(m, prios, es[0]), prios, boot, es[1..]);
      }
    }
  }

  // ---------------------------------------------------------------------------------------
  // From boot
  // ---------------------------------------------------------------------------------------

  /** The lines that `kernel_main` leaves open. */
  function BootMask(): (m: Mask)
    ensures |m| == IRQ_MAX && forall i :: 0 <= i < IRQ_MAX ==> m[i] == (i !in {0, 1, 2, 12, 14})
  {
    seq(IRQ_MAX, i => i !in {0, 1, 2, 12, 14})
  }

  /** The line number is the priority. */
  function BootPrios(): (p: seq<nat>)
    ensures |p| == IRQ_MAX && forall i :: 0 <= i < IRQ_MAX ==> p[i] == i
  {
    seq(IRQ_MAX, i => i)
  }

  function Boot(thread: nat): Machine {
    Machine(Irq(BootMask(), 0xFF, []), thread, [])
  }

  lemma BootOpen()
    ensures Open(BootMask()) == 5 <= NEST_LIMIT
  {
    BootPart(16);
    assert BootMask()[..16] == BootMask();
  }

  lemma {:induction false} BootPart(n: nat)
    requires n <= IRQ_MAX
    ensures Open(BootMask()[..n]) == (if n <= 3 then n else 3) + (if n > 12 then 1 else 0) + (if n > 14 then 1 else 0)
    decreases n
  {
    if n > 0 {
      BootPart(n - 1);
      assert BootMask()[..n][..n - 1] == BootMask()[..n - 1];
    }
  }

  /** From boot, handlers nest at most five deep and the stack of eight never overflows; and own masks
      and priorities are restored exactly if handlers end in the reverse order of their beginnings. */
  lemma FromBoot(thread: nat, es: seq<Event>)
    requires Runs(Boot(thread), BootPrios(), es)
    ensures |Run(Boot(thread), BootPrios(), es).active| <= 5
    ensures AllRestore(Boot(thread), BootPrios(), es) <==> AllInnermost(Boot(thread), BootPrios(), es)
  {
    BootOpen();
    EveryRun(Boot(thread), BootPrios(), BootMask(), es);
    RestoresExact(Boot(thread), BootPrios(), BootMask(), es);
  }

  /** Thread `a` is in its handler of line 12 when a tick switches to `b`, and `b` in its handler of line 1
      when a tick switches back. */
  function Crossing(b: nat, a: nat): seq<Event> {
    [Deliver(12), Tick(b), Deliver(1), Tick(a)]
  }

  lemma CrossingState(a: nat, b: nat) returns (m: Machine)
    requires a != b
    ensures Runs(Boot(a), BootPrios(), Crossing(b, a)) && m == Run(Boot(a), BootPrios(), Crossing(b, a))
    ensures m.current == a && |m.active| == 2 && m.active[0] == Active(a, Saved(BootMask(), 0xFF)) && m.active[1].thread == b
    ensures Counted(m, BootPrios(), BootMask()) && InStep(m)
  {
    var prios, es := BootPrios(), Crossing(b, a);
    var m0 := Boot(a);
    BootOpen();
    var m1 := Happen(m0, prios, es[0]);
    StepCounted(m0, prios, BootMask(), es[0]);
    StaysInStep(m0, prios, BootMask(), es[0]);
    assert !m1.irq.mask[0] && !m1.irq.mask[1];
    TickRestores(m1.irq, prios, BootMask());
    var m2 := Happen(m1, prios, es[1]);
    var m3 := Happen(m2, prios, es[2]);
    StepCounted(m2, prios, BootMask(), es[2]);
    StaysInStep(m2, prios, BootMask(), es[2]);
    assert !m3.irq.mask[0];
    TickRestores(m3.irq, prios, BootMask());
    m := Happen(m3, prios, es[3]);
    RunFour(m0, prios, es, m1, m2, m3, m);
  }

  lemma RunFour(m0: Machine, prios: seq<nat>, es: seq<Event>, m1: Machine, m2: Machine, m3: Machine, m4: Machine)
    requires |es| == 4 && Shaped(m0.irq, prios)
    requires Possible(m0, prios, es[0]) && m1 == Happen(m0, prios, es[0])
    requires Possible(m1, prios, es[1]) && m2 == Happen(m1, prios, es[1])
    requires Possible(m2, prios, es[2]) && m3 == Happen(m2, prios, es[2])
    requires Possible(m3, prios, es[3]) && m4 == Happen(m3, prios, es[3])
    ensures Runs(m0, prios, es) && Run(m0, prios, es) == m4
  {
    var e1, e2, e3 := es[1..], es[2..], es[3..];
    assert e1[1..] == e2 && e2[1..] == e3 && e3[1..] == [] && e1[0] == es[1] && e2[0] == es[2] && e3[0] == es[3];
    assert Runs(m4, prios, []) && Run(m4, prios, []) == m4;
    assert Runs(m3, prios, e3) && Run(m3, prios, e3) == m4;
    assert Runs(m2, prios, e2) && Run(m2, prios, e2) == m4;
    assert Runs(m1, prios, e1) && Run(m1, prios, e1) == m4;
  }

  /** The end of `a`'s handler then does not bring back the mask it saved: lines stay masked that were
      open when it began. */
  lemma CrossedEnd(a: nat, b: nat) returns (m: Machine)
    requires a != b
    ensures Runs(Boot(a), BootPrios(), Crossing(b, a)) && m == Run(Boot(a), BootPrios(), Crossing(b, a))
    ensures |m.active| == 2 && Mine(m) == 0 && !Innermost(m) && !RestoresOwn(m) && Exit(m.irq).mask != BootMask()
  {
    m := CrossingState(a, b);
    EndExact(m, BootPrios(), BootMask());
    OpenFalls(m.irq, BootPrios(), BootMask(), 0, 1);
  }
}

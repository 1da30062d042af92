/** src/arch/x86_64/irq.c as it runs: the mask and priority stacks and the interrupt controller's
    mask, which `mask` stands for. */
module Irq {
  import N = IrqNesting

  class Controller {
    const maskStack: array<N.Mask>
    const prioStack: array<nat>
    var nesting: nat
    var priority: nat
    var mask: N.Mask
    const prios: seq<nat>

    ghost predicate Shaped()
      reads this, maskStack, prioStack
    {
      && maskStack.Length == prioStack.Length == N.NEST_LIMIT && nesting <= N.NEST_LIMIT
      && N.Shaped(State(), prios)
    }

    ghost function State(): N.Irq
      reads this, maskStack, prioStack
      requires nesting <= maskStack.Length == prioStack.Length
    {
      N.Irq(mask, priority, seq(nesting, k requires 0 <= k < nesting reads this, maskStack, prioStack
        requires nesting <= maskStack.Length == prioStack.Length => N.Saved(maskStack[k], prioStack[k])))
    }

    /** `irq_init`: the line number is the priority. */
    constructor (boot: N.Mask)
      requires |boot| == N.IRQ_MAX
      ensures Shaped() && prios == seq(N.IRQ_MAX, i => i) && State() == N.Irq(boot, 0xFF, [])
    {
      maskStack := new N.Mask[N.NEST_LIMIT](_ => []);
      prioStack := new nat[N.NEST_LIMIT](_ => 0);
      nesting, priority, mask := 0, 0xFF, boot;
      prios := seq(N.IRQ_MAX, i => i);
    }

    method Enter(irq: nat)
      requires Shaped()
      modifies this, maskStack, prioStack
      ensures Shaped() && State() == N.Enter(old(State()), prios, irq)
    {
      if irq >= N.IRQ_MAX || nesting >= N.NEST_LIMIT { return; }
      var raised, p := mask, prios[irq];
      for i := 0 to N.IRQ_MAX
        invariant |raised| == N.IRQ_MAX
        invariant forall j :: 0 <= j < N.IRQ_MAX ==> raised[j] == (mask[j] || (j < i && prios[j] >= p))
      {
        if prios[i] >= p { raised := raised[i := true]; }
      }
      assert raised == N.Raised(mask, prios, p);
      ghost var was := State();
      maskStack[nesting] := mask;
      prioStack[nesting] := priority;
      nesting := nesting + 1;
      priority, mask := p, raised;
      assert State().saved == was.saved + [N.Saved(was.mask, was.priority)];
    }

    method Exit()
      requires Shaped()
      modifies this
      ensures Shaped() && State() == N.Exit(old(State()))
    {
      if nesting == 0 { return; }
      ghost var was := State();
      nesting := nesting - 1;
      assert was.saved[nesting] == N.Saved(maskStack[nesting], prioStack[nesting]);
      priority, mask := prioStack[nesting], maskStack[nesting];
      assert State().saved == was.saved[..nesting];
    }
  }
}

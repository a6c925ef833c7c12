/** Runs of the APIC shadow: they refine runs of the two sets; what the timer keeps in every reachable
  * state, and how often it fires. */
module ApicTimer {
  import opened Words
  import opened Bits
  import opened Apic
  import opened Division

  function Run(s: Apic, ops: seq<Op>): (r: Apic)
    requires Shape(s)
    ensures Shape(r)
    decreases |ops|
  {
    if ops == [] then s else Run(Step(s, ops[0]), ops[1..])
  }

  /** The two-set controller can go from `c` to `d` by these operations. */
  ghost predicate AbstractRun(c: Controller, ops: seq<Op>, d: Controller)
    decreases |ops|
  {
    if ops == [] then d == c else exists e :: AbstractStep(c, ops[0], e) && AbstractRun(e, ops[1..], d)
  }

  /** The two-set controller leaves no choice. */
  lemma AbstractStepUnique(c: Controller, op: Op, d: Controller, e: Controller)
    requires AbstractStep(c, op, d) && AbstractStep(c, op, e)
    ensures d == e
  {
    if op == PendingOp && c.irr != {} {
      var v :| IsMax(v, c.irr) && d == c.(irr := c.irr - {v}, isr := c.isr + {v});
      var u :| IsMax(u, c.irr) && e == c.(irr := c.irr - {u}, isr := c.isr + {u});
      assert u <= v && v <= u;
    } else if (op == EoiOp || op.WriteOp?) && Retires(c, d) && Retires(c, e) && c.isr != {} {
      var v :| IsMax(v, c.isr) && d == c.(isr := c.isr - {v});
      var u :| IsMax(u, c.isr) && e == c.(isr := c.isr - {u});
      assert u <= v && v <= u;
    }
  }

  lemma {:induction false} AbstractRunUnique(c: Controller, ops: seq<Op>, d: Controller, e: Controller)
    requires AbstractRun(c, ops, d) && AbstractRun(c, ops, e)
    ensures d == e
    decreases |ops|
  {
    if ops != [] {
      var x :| AbstractStep(c, ops[0], x) && AbstractRun(x, ops[1..], d);
      var y :| AbstractStep(c, ops[0], y) && AbstractRun(y, ops[1..], e);
      AbstractStepUnique(c, ops[0], x, y);
      AbstractRunUnique(x, ops[1..], d, e);
    }
  }

  /** Every run of the registers is a run of the two sets. */
  lemma {:induction false} RunRefines(s: Apic, ops: seq<Op>)
    requires Shape(s)
    ensures AbstractRun(Abstract(s), ops, Abstract(Run(s, ops)))
    decreases |ops|
  {
    if ops != [] {
      StepRefines(s, ops[0]);
      RunRefines(Step(s, ops[0]), ops[1..]);
    }
  }

  /** A running timer has ticks left, and no more than it was loaded with. */
  predicate TimerInv(s: Apic) { s.enabled ==> 0 < s.current <= s.initial }

  lemma StepKeepsTimerInv(s: Apic, op: Op)
    requires Shape(s) && TimerInv(s)
    ensures TimerInv(Step(s, op))
  {
  }

  lemma {:induction false} RunKeepsTimerInv(s: Apic, ops: seq<Op>)
    requires Shape(s) && TimerInv(s)
    ensures TimerInv(Run(s, ops))
    decreases |ops|
  {
    if ops != [] {
      StepKeepsTimerInv(s, ops[0]);
      RunKeepsTimerInv(Step(s, ops[0]), ops[1..]);
    }
  }

  function Ticks(ops: seq<Op>): nat
    decreases |ops|
  {
    if ops == [] then 0 else (if ops[0] == TickOp then 1 else 0) + Ticks(ops[1..])
  }

  predicate FiresOn(s: Apic, op: Op) { op == TickOp && s.enabled && s.current == 1 && s.lvt % 256 >= 16 }

  /** How many times the timer injects its vector during the run. */
  function Fires(s: Apic, ops: seq<Op>): nat
    requires Shape(s)
    decreases |ops|
  {
    if ops == [] then 0 else (if FiresOn(s, ops[0]) then 1 else 0) + Fires(Step(s, ops[0]), ops[1..])
  }

  /** The operation programs neither the timer's vector entry nor its initial count. */
  predicate KeepsTimer(op: Op) {
    op.WriteOp? ==> op.offset != 0x320 && op.offset != 0x380
  }

  predicate AllKeepTimer(ops: seq<Op>) { forall i :: 0 <= i < |ops| ==> KeepsTimer(ops[i]) }

  /** How often a count of `n` has run out after `k` ticks. */
  function Expiries(lvt: Word32, n: nat, k: nat): nat
    requires n > 0
  {
    if Bit(lvt, 17) then k / n else if k >= n then 1 else 0
  }

  /** The timer `k` ticks after it was started with count `n`. */
  predicate TimerAt(s: Apic, lvt: Word32, n: Word32, k: nat)
    requires n > 0
  {
    && s.lvt == lvt && s.initial == n
    && (if Bit(lvt, 17) || k < n then s.enabled && s.current == n - k % n else !s.enabled && s.current == 0)
  }

  lemma NextRemainder(k: nat, n: nat)
    requires n > 0
    ensures (k + 1) % n == (if k % n == n - 1 then 0 else k % n + 1)
    ensures (k + 1) / n == k / n + (if k % n == n - 1 then 1 else 0)
  {
    if k % n == n - 1 {
      DivModUnique(k + 1, n, k / n + 1, 0);
    } else {
      DivModUnique(k + 1, n, k / n, k % n + 1);
    }
  }

  lemma BelowItself(k: nat, n: nat)
    requires k < n
    ensures k % n == k
  {
  }

  lemma TickAt(s: Apic, lvt: Word32, n: Word32, k: nat)
    requires Shape(s) && n > 0 && TimerAt(s, lvt, n, k)
    ensures TimerAt(Tick(s), lvt, n, k + 1)
    ensures Expiries(lvt, n, k + 1) == Expiries(lvt, n, k) + (if Expires(s) then 1 else 0)
  {
    NextRemainder(k, n);
    TimerBits(lvt);
    if k < n {
      BelowItself(k, n);
    }
  }

  lemma OthersKeepTimer(s: Apic, lvt: Word32, n: Word32, k: nat, op: Op)
    requires Shape(s) && n > 0 && TimerAt(s, lvt, n, k) && KeepsTimer(op) && op != TickOp
    ensures TimerAt(Step(s, op), lvt, n, k)
  {
  }

  /** How many times a started timer has injected its vector after `k` ticks. */
  function Injected(lvt: Word32, n: nat, k: nat): nat
    requires n > 0
  {
    if lvt % 256 >= 16 then Expiries(lvt, n, k) else 0
  }

  function After(op: Op, k: nat): nat { if op == TickOp then k + 1 else k }

  lemma StepAt(s: Apic, lvt: Word32, n: Word32, k: nat, op: Op)
    requires Shape(s) && n > 0 && TimerAt(s, lvt, n, k) && KeepsTimer(op)
    ensures TimerAt(Step(s, op), lvt, n, After(op, k))
    ensures Injected(lvt, n, After(op, k)) == Injected(lvt, n, k) + (if FiresOn(s, op) then 1 else 0)
  {
    if op == TickOp {
      TickAt(s, lvt, n, k);
    } else {
      OthersKeepTimer(s, lvt, n, k, op);
    }
  }

  lemma {:induction false} RunFires(s: Apic, lvt: Word32, n: Word32, k: nat, ops: seq<Op>)
    requires Shape(s) && n > 0 && TimerAt(s, lvt, n, k) && AllKeepTimer(ops)
    ensures TimerAt(Run(s, ops), lvt, n, k + Ticks(ops))
    ensures Injected(lvt, n, k) + Fires(s, ops) == Injected(lvt, n, k + Ticks(ops))
    decreases |ops|
  {
    if ops != [] {
      assert KeepsTimer(ops[0]);
      StepAt(s, lvt, n, k, ops[0]);
      RunFires(Step(s, ops[0]), lvt, n, After(ops[0], k), ops[1..]);
      assert After(ops[0], k) + Ticks(ops[1..]) == k + Ticks(ops);
    }
  }

  /** The guest programs the vector entry and then the count. */
  function Started(s: Apic, lvt: Word32, n: Word32): (r: Apic)
    requires Shape(s)
    ensures Shape(r)
  {
    Write(Write(s, 0x320, lvt), 0x380, n)
  }

  lemma StartedIs(s: Apic, lvt: Word32, n: Word32)
    requires Shape(s)
    ensures var d := Started(s, lvt, n);
            d.lvt == lvt && d.initial == n && d.current == n && d.enabled == (n > 0 && !Bit(lvt, 16))
  {
    TimerBits(lvt);
  }

  lemma StartedAt(s: Apic, lvt: Word32, n: Word32)
    requires Shape(s) && n > 0 && !Bit(lvt, 16)
    ensures TimerAt(Started(s, lvt, n), lvt, n, 0) && Injected(lvt, n, 0) == 0
  {
    StartedIs(s, lvt, n);
    BelowItself(0, n);
  }

  lemma {:induction false} StoppedStays(s: Apic, ops: seq<Op>)
    requires Shape(s) && !s.enabled && AllKeepTimer(ops)
    ensures Fires(s, ops) == 0
    decreases |ops|
  {
    if ops != [] {
      assert KeepsTimer(ops[0]);
      StoppedStays(Step(s, ops[0]), ops[1..]);
    }
  }

  /** Closed form: from any state, after programming the timer, a run of any operations that leave its
    * registers alone injects the vector once for each `n` ticks in periodic mode, once at tick `n` in
    * one-shot mode, and never if the entry is masked, the count is zero or the vector is below 16. */
  lemma TimerClosedForm(s: Apic, lvt: Word32, n: Word32, ops: seq<Op>)
    requires Shape(s) && AllKeepTimer(ops)
    ensures Fires(Started(s, lvt, n), ops)
            == if Bit(lvt, 16) || n == 0 then 0 else Injected(lvt, n, Ticks(ops))
    ensures !Bit(lvt, 16) && n > 0 ==> TimerAt(Run(Started(s, lvt, n), ops), lvt, n, Ticks(ops))
  {
    StartedIs(s, lvt, n);
    if Bit(lvt, 16) || n == 0 {
      StoppedStays(Started(s, lvt, n), ops);
    } else {
      StartedAt(s, lvt, n);
      RunFires(Started(s, lvt, n), lvt, n, 0, ops);
    }
  }

  /** A firing tick requests the timer's vector; every other tick leaves all registers alone. */
  lemma FiringRequests(s: Apic)
    requires Shape(s)
    ensures if FiresOn(s, TickOp) then s.lvt % 256 in Vectors(Tick(s), IRR) else Tick(s).regs == s.regs
  {
    TickRefines(s);
  }

  lemma {:induction false} LowVectorStays(s: Apic, ops: seq<Op>)
    requires Shape(s) && s.lvt % 256 < 16 && AllKeepTimer(ops)
    ensures Fires(s, ops) == 0
    decreases |ops|
  {
    if ops != [] {
      assert KeepsTimer(ops[0]);
      LowVectorStays(Step(s, ops[0]), ops[1..]);
    }
  }

  /** Masking the timer's entry does not stop a running timer, because only the next count write looks at
    * the mask: some run that leaves the timer's registers alone still fires exactly if the timer was
    * running and the new vector is not below 16. */
  lemma MaskingLater(s: Apic, lvt: Word32)
    requires Shape(s) && Bit(lvt, 16) && TimerInv(s)
    ensures (exists ops :: AllKeepTimer(ops) && Fires(Write(s, 0x320, lvt), ops) > 0)
            <==> s.enabled && lvt % 256 >= 16
  {
    var d := Write(s, 0x320, lvt);
    if s.enabled && lvt % 256 >= 16 {
      var ops := CountsDown(d);
    } else {
      forall ops | AllKeepTimer(ops) ensures Fires(d, ops) == 0 {
        if s.enabled {
          LowVectorStays(d, ops);
        } else {
          StoppedStays(d, ops);
        }
      }
    }
  }

  lemma {:induction false} CountsDown(s: Apic) returns (ops: seq<Op>)
    requires Shape(s) && s.enabled && s.current > 0 && s.lvt % 256 >= 16
    ensures AllKeepTimer(ops) && Fires(s, ops) > 0
    decreases s.current
  {
    if s.current == 1 {
      ops := [TickOp];
    } else {
      var rest := CountsDown(Tick(s));
      ops := [TickOp] + rest;
      assert ops[1..] == rest;
    }
  }
}

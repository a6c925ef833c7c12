/** How far a block is executed. */
module Blocks {
  import opened Words
  import opened Ir
  import opened Machine
  import opened StepResults

  /** Jumps, calls, returns, the trace exit and the halt. */
  predicate Leaving(code: MicroOpCode) {
    || code.JmpRel? || code.JmpAbs? || code.JccRel? || code.CallRel? || code.CallAbs? || code.Ret?
    || code.TraceExit? || code.Hlt?
  }

  /** The operations up to the first that leaves the block, that one included. */
  function Reached(ops: seq<MicroOpInst>): (r: seq<MicroOpInst>)
    ensures r <= ops
    ensures forall i :: 0 <= i < |r| - 1 ==> !Leaving(ops[i].code)
    ensures r != ops ==> r != [] && Leaving(ops[|r| - 1].code)
  {
    if ops == [] || Leaving(ops[0].code) then (if ops == [] then [] else [ops[0]])
    else [ops[0]] + Reached(ops[1..])
  }

  /** Nothing behind the first operation that leaves the block has any effect, whatever it is. */
  lemma {:induction false} RunReached(cb: Callbacks, ops: seq<MicroOpInst>, st: State, ip: Option<Word>)
    ensures Run(cb, ops, st, ip) == Run(cb, Reached(ops), st, ip)
    decreases |ops|
  {
    if ops != [] && !Leaving(ops[0].code) {
      var o := Step(cb, ops[0], st, ip);
      assert Reached(ops)[1..] == Reached(ops[1..]);
      if o.Done? {
        RunReached(cb, ops[1..], o.st, o.ip);
      }
    }
  }

  lemma EndsIffLeaving(code: MicroOpCode)
    ensures EndsBlock(code) <==> Leaving(code)
  {
  }

  /** Operations that do not leave the block are executed one after the other until one fails. */
  lemma {:induction false} RunConcat(cb: Callbacks, first: seq<MicroOpInst>, rest: seq<MicroOpInst>, st: State,
                                     ip: Option<Word>)
    requires forall i :: 0 <= i < |first| ==> !Leaving(first[i].code)
    ensures var o := Run(cb, first, st, ip);
            Run(cb, first + rest, st, ip) == if o.Done? then Run(cb, rest, o.st, o.ip) else o
    decreases |first|
  {
    if first == [] {
      assert [] + rest == rest;
    } else {
      var o := Step(cb, first[0], st, ip);
      assert (first + rest)[1..] == first[1..] + rest;
      if o.Done? {
        RunConcat(cb, first[1..], rest, o.st, o.ip);
      }
    }
  }

  // ---- where jumps, calls and returns lead ---------------------------------

  /** The address eight bytes below or above, modulo 2^64. */
  function Lower8(a: Word): Word { if a >= 8 then a - 8 else a + 0xFFFF_FFFF_FFFF_FFF8 }

  function Raise8(a: Word): Word { if a < 0xFFFF_FFFF_FFFF_FFF8 then a + 8 else a - 0xFFFF_FFFF_FFFF_FFF8 }

  function AfterRead(cb: Callbacks, st: State, a: Word): seq<MemCall> {
    if cb.read.Some? then st.calls + [ReadCall(a, true)] else st.calls
  }

  function AfterWrite(cb: Callbacks, st: State, a: Word, v: Word): seq<MemCall> {
    if cb.write then st.calls + [WriteCall(a, true, v)] else st.calls
  }

  /** What the callback answers, zero without one. */
  function Answer(cb: Callbacks, st: State, a: Word): Word {
    if cb.read.Some? then cb.read.value(st.calls, a, true) else 0
  }

  /** Jumps touch nothing; relative ones count from the address in RAX. */
  lemma JumpResults(cb: Callbacks, inst: MicroOpInst, st: State, ip: Option<Word>)
    ensures var o := Step(cb, inst, st, ip);
            && (inst.code.JmpRel? ==>
                  Leaves(o, st, Some((st.regs[0] + inst.immediate) % 0x1_0000_0000_0000_0000), st.regs))
            && (inst.code.JmpAbs? ==> Leaves(o, st, Some(st.Read(inst.src1)), st.regs))
  {
    if inst.code.JmpRel? || inst.code.JmpAbs? {
      ControlStep(cb, inst, st, ip);
    }
  }

  /** PushR lowers RSP by eight and writes there the register as it was before. */
  lemma PushResults(cb: Callbacks, inst: MicroOpInst, st: State, ip: Option<Word>)
    requires inst.code.PushR?
    ensures var a := Lower8(st.regs[4]);
            Step(cb, inst, st, ip) == Done(State(st.regs[4 := a], AfterWrite(cb, st, a, st.Read(inst.src1))), ip)
  {
    ControlStep(cb, inst, st, ip);
    Lowered(st.regs[4]);
  }

  /** CallRel and CallAbs push the address in RAX; an absolute call through RSP goes to the lowered RSP. */
  lemma CallResults(cb: Callbacks, inst: MicroOpInst, st: State, ip: Option<Word>)
    requires inst.code.CallRel? || inst.code.CallAbs?
    ensures var a := Lower8(st.regs[4]);
            var target: Word := if inst.code.CallRel? then (st.regs[0] + inst.immediate) % 0x1_0000_0000_0000_0000
                                else if inst.src1 == 4 then a else st.Read(inst.src1);
            Step(cb, inst, st, ip) == Done(State(st.regs[4 := a], AfterWrite(cb, st, a, st.regs[0])), Some(target))
  {
    ControlStep(cb, inst, st, ip);
    Lowered(st.regs[4]);
  }

  /** PopR reads at RSP, raises it by eight and then writes the destination, which may be RSP itself; Ret
    * does the same with the successor address. */
  lemma PopResults(cb: Callbacks, inst: MicroOpInst, st: State, ip: Option<Word>)
    requires inst.code.PopR? || inst.code.Ret?
    ensures var a := st.regs[4];
            var v, raised := Answer(cb, st, a), st.regs[4 := Raise8(a)];
            Step(cb, inst, st, ip)
            == if inst.code.Ret? then Done(State(raised, AfterRead(cb, st, a)), Some(v))
               else Done(State(Put(raised, inst.dst, v), AfterRead(cb, st, a)), ip)
  {
    ControlStep(cb, inst, st, ip);
    Raised(st.regs[4]);
  }

  lemma Lowered(a: Word)
    ensures SubW(a, 8) == Lower8(a)
  {
  }

  lemma Raised(a: Word)
    ensures AddW(a, 8) == Raise8(a)
  {
  }
}

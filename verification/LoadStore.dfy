/** Loads and stores of the interpreter: which callback they invoke with which address, and that a block of
  * them behaves as a store of variables when the callbacks behave as memory. */
module LoadStore {
  import opened Words
  import opened Ir
  import opened Machine
  import opened MicroStack
  import opened StepResults
  import WideArith

  // ---- one load or store ---------------------------------------------------

  /** MovRM and LoadRR: exactly one read, at register plus displacement or at the sum of two registers, of
    * eight bytes exactly if the operand size is eight; the answer goes to the destination and nothing else
    * changes. With no callback installed zero is loaded. */
  lemma LoadResult(cb: Callbacks, inst: MicroOpInst, st: State, ip: Option<Word>)
    requires inst.code.MovRM? || inst.code.LoadRR?
    ensures var x := st.Read(inst.src1);
            var a: Word := (x + if inst.code.MovRM? then inst.immediate else st.Read(inst.src2))
                           % 0x1_0000_0000_0000_0000;
            var o, wide := Step(cb, inst, st, ip), inst.operandSize == 8;
            && o.Done? && o.ip == ip
            && o.st.calls == (if cb.read.Some? then st.calls + [ReadCall(a, wide)] else st.calls)
            && o.st.regs == Put(st.regs, inst.dst, if cb.read.Some? then cb.read.value(st.calls, a, wide) else 0)
  {
  }

  /** MovMR, MovMI and StoreRR: exactly one write, of the register `src1` or, for MovMI, of its number, and
    * no register changes. */
  lemma StoreResult(cb: Callbacks, inst: MicroOpInst, st: State, ip: Option<Word>)
    requires inst.code.MovMR? || inst.code.MovMI? || inst.code.StoreRR?
    ensures var x := st.Read(inst.dst);
            var a: Word := (x + if inst.code.StoreRR? then st.Read(inst.src2) else inst.immediate)
                           % 0x1_0000_0000_0000_0000;
            var v: Word := if inst.code.MovMI? then inst.src1 else st.Read(inst.src1);
            var o, wide := Step(cb, inst, st, ip), inst.operandSize == 8;
            && o.Done? && o.ip == ip && o.st.regs == st.regs
            && o.st.calls == if cb.write then st.calls + [WriteCall(a, wide, v)] else st.calls
  {
  }

  // ---- a store of variables ------------------------------------------------

  /** Registers, and the words kept at a fixed set of addresses. */
  datatype Vars = Vars(regs: Regs, cells: map<Word, Word>)

  /** No two of the addresses are less than eight bytes apart. */
  predicate Spread(cells: map<Word, Word>) {
    forall a, b :: a in cells && b in cells && a != b ==> !Touches(a, b)
  }

  predicate Loads(code: MicroOpCode) { code.MovRM? || code.LoadRR? }

  predicate Stores(code: MicroOpCode) { code.MovMR? || code.MovMI? || code.StoreRR? }

  /** Operations on registers alone. */
  predicate OnRegisters(code: MicroOpCode) { IsMove(code) || IsArith(code) || IsLogic(code) }

  function RegisterValue(regs: Regs, r: Register): Word { if r == 255 then 0 else regs[r] }

  /** The address a load or store names. */
  function AddressIn(op: MicroOpInst, regs: Regs): Word {
    var base := if Loads(op.code) then op.src1 else op.dst;
    var offset := if op.code.LoadRR? || op.code.StoreRR? then RegisterValue(regs, op.src2) else op.immediate;
    (RegisterValue(regs, base) + offset) % 0x1_0000_0000_0000_0000
  }

  /** A full-width load or store of one of the variables, or an operation on registers. */
  predicate OnVars(v: Vars, op: MicroOpInst) {
    OnRegisters(op.code)
    || ((Loads(op.code) || Stores(op.code)) && op.operandSize == 8 && AddressIn(op, v.regs) in v.cells)
  }

  function AfterRegisterOp(regs: Regs, op: MicroOpInst): Regs
    requires OnRegisters(op.code)
  {
    var st := State(regs, []);
    if IsMove(op.code) then StepMove(op, st).regs
    else if IsArith(op.code) then StepArith(op, st).regs
    else StepLogic(op, st).regs
  }

  function VarStep(v: Vars, op: MicroOpInst): Vars
    requires OnVars(v, op)
  {
    if OnRegisters(op.code) then v.(regs := AfterRegisterOp(v.regs, op))
    else
      var a := AddressIn(op, v.regs);
      if Loads(op.code) then v.(regs := Put(v.regs, op.dst, v.cells[a]))
      else v.(cells := v.cells[a := if op.code.MovMI? then op.src1 else RegisterValue(v.regs, op.src1)])
  }

  ghost predicate Keeps(cb: Callbacks, st: State, v: Vars) {
    && Memory(cb) && Spread(v.cells) && st.regs == v.regs
    && forall a :: a in v.cells ==> Cell(cb, st.calls, a) == v.cells[a]
  }

  lemma MoveIgnoresCalls(op: MicroOpInst, st: State)
    ensures StepMove(op, st) == State(StepMove(op, State(st.regs, [])).regs, st.calls)
  {
  }

  lemma StepsIgnoreCalls(op: MicroOpInst, st: State)
    requires op.code.IncR? || op.code.DecR? || op.code.CmpxchgRR? || op.code.XaddRR?
    ensures StepArith(op, st) == State(StepArith(op, State(st.regs, [])).regs, st.calls)
  {
  }

  lemma ArithIgnoresCalls(op: MicroOpInst, st: State)
    ensures StepArith(op, st) == State(StepArith(op, State(st.regs, [])).regs, st.calls)
  {
    if op.code.IncR? || op.code.DecR? || op.code.CmpxchgRR? || op.code.XaddRR? {
      StepsIgnoreCalls(op, st);
    }
  }

  lemma LogicIgnoresCalls(op: MicroOpInst, st: State)
    ensures StepLogic(op, st) == State(StepLogic(op, State(st.regs, [])).regs, st.calls)
  {
  }

  lemma RegisterOpKeeps(cb: Callbacks, st: State, v: Vars, op: MicroOpInst, ip: Option<Word>)
    requires Keeps(cb, st, v) && OnRegisters(op.code)
    ensures Step(cb, op, st, ip) == Done(State(AfterRegisterOp(v.regs, op), st.calls), ip)
  {
    if IsMove(op.code) {
      MoveIgnoresCalls(op, st);
    } else if IsArith(op.code) {
      ArithStep(cb, op, st, ip);
      ArithIgnoresCalls(op, st);
    } else {
      LogicStep(cb, op, st, ip);
      LogicIgnoresCalls(op, st);
    }
  }

  lemma LoadKeeps(cb: Callbacks, st: State, v: Vars, op: MicroOpInst, ip: Option<Word>)
    requires Keeps(cb, st, v) && OnVars(v, op) && Loads(op.code)
    ensures var o := Step(cb, op, st, ip); o.Done? && o.ip == ip && Keeps(cb, o.st, VarStep(v, op))
  {
    LoadResult(cb, op, st, ip);
    LoadIsNoRegisterOp(op.code);
    var a := AddressIn(op, v.regs);
    forall b | b in v.cells ensures Cell(cb, st.calls + [ReadCall(a, true)], b) == v.cells[b] {
      assert Unaffected(cb, st.calls, ReadCall(a, true), b);
    }
  }

  lemma LoadIsNoRegisterOp(code: MicroOpCode)
    requires Loads(code) || Stores(code)
    ensures !OnRegisters(code)
  {
  }

  lemma StoreKeeps(cb: Callbacks, st: State, v: Vars, op: MicroOpInst, ip: Option<Word>)
    requires Keeps(cb, st, v) && OnVars(v, op) && Stores(op.code)
    ensures var o := Step(cb, op, st, ip); o.Done? && o.ip == ip && Keeps(cb, o.st, VarStep(v, op))
  {
    StoreResult(cb, op, st, ip);
    LoadIsNoRegisterOp(op.code);
    var a := AddressIn(op, v.regs);
    var w: Word := if op.code.MovMI? then op.src1 else RegisterValue(v.regs, op.src1);
    CellsAfterStore(cb, st.calls, v.cells, a, w);
  }

  lemma CellsAfterStore(cb: Callbacks, calls: seq<MemCall>, cells: map<Word, Word>, a: Word, w: Word)
    requires Memory(cb) && Spread(cells) && a in cells
    requires forall b :: b in cells ==> Cell(cb, calls, b) == cells[b]
    ensures Spread(cells[a := w])
    ensures forall b :: b in cells ==> Cell(cb, calls + [WriteCall(a, true, w)], b) == cells[a := w][b]
  {
    forall b | b in cells ensures Cell(cb, calls + [WriteCall(a, true, w)], b) == cells[a := w][b] {
      if b == a {
        assert ReadsBack(cb, calls, a, w);
      } else {
        assert Unaffected(cb, calls, WriteCall(a, true, w), b);
      }
    }
  }

  /** One step on the variables; the successor address is untouched. */
  lemma StepKeeps(cb: Callbacks, st: State, v: Vars, op: MicroOpInst, ip: Option<Word>)
    requires Keeps(cb, st, v) && OnVars(v, op)
    ensures var o := Step(cb, op, st, ip); o.Done? && o.ip == ip && Keeps(cb, o.st, VarStep(v, op))
  {
    if OnRegisters(op.code) {
      RegisterOpKeeps(cb, st, v, op, ip);
    } else if Loads(op.code) {
      LoadKeeps(cb, st, v, op, ip);
    } else {
      StoreKeeps(cb, st, v, op, ip);
    }
  }

  predicate AllOnVars(v: Vars, ops: seq<MicroOpInst>)
    decreases |ops|
  {
    ops == [] || (OnVars(v, ops[0]) && AllOnVars(VarStep(v, ops[0]), ops[1..]))
  }

  function VarRun(v: Vars, ops: seq<MicroOpInst>): Vars
    requires AllOnVars(v, ops)
    decreases |ops|
  {
    if ops == [] then v else VarRun(VarStep(v, ops[0]), ops[1..])
  }

  lemma NotEnding(code: MicroOpCode)
    requires OnRegisters(code) || Loads(code) || Stores(code)
    ensures !EndsBlock(code)
  {
  }

  /** Every block of full-width loads and stores of variables at least eight bytes apart, mixed with any
    * moves, arithmetic and logic, runs as assignments to registers and variables, across the wrap of
    * addresses at 2^64. */
  lemma {:induction false} VarsRefine(cb: Callbacks, st: State, v: Vars, ops: seq<MicroOpInst>, ip: Option<Word>)
    requires Keeps(cb, st, v) && AllOnVars(v, ops)
    ensures var o := Run(cb, ops, st, ip); o.Done? && o.ip == ip && Keeps(cb, o.st, VarRun(v, ops))
    decreases |ops|
  {
    if ops != [] {
      StepKeeps(cb, st, v, ops[0], ip);
      NotEnding(ops[0].code);
      VarsRefine(cb, Step(cb, ops[0], st, ip).st, VarStep(v, ops[0]), ops[1..], ip);
    }
  }

  /** A full-width store, then a full-width load through any registers and displacements: at the address of
    * the store it gives the value stored, at least eight bytes away what was there before. */
  lemma StoreThenLoad(cb: Callbacks, st: State, store: MicroOpInst, load: MicroOpInst, ip: Option<Word>)
    requires Memory(cb) && store.code.MovMR? && load.code.MovRM? && store.operandSize == load.operandSize == 8
    requires 0 <= load.dst <= 32
    ensures var a: Word := (st.Read(store.dst) + store.immediate) % 0x1_0000_0000_0000_0000;
            var b: Word := (st.Read(load.src1) + load.immediate) % 0x1_0000_0000_0000_0000;
            var o := Run(cb, [store, load], st, ip);
            && o.Done? && o.ip == ip
            && (a == b ==> o.st.regs == st.regs[load.dst := st.Read(store.src1)])
            && ((a - b) % 0x1_0000_0000_0000_0000 >= 8 && (b - a) % 0x1_0000_0000_0000_0000 >= 8 ==>
                  o.st.regs == st.regs[load.dst := Cell(cb, st.calls, b)])
  {
    var mid := Step(cb, store, st, ip).st;
    StoreResult(cb, store, st, ip);
    LoadResult(cb, load, mid, ip);
    NotEnding(store.code);
    NotEnding(load.code);
    WideArith.RunTwo(cb, store, load, st, mid, ip);
    var a: Word := (st.Read(store.dst) + store.immediate) % 0x1_0000_0000_0000_0000;
    var b: Word := (st.Read(load.src1) + load.immediate) % 0x1_0000_0000_0000_0000;
    assert ReadsBack(cb, st.calls, a, st.Read(store.src1));
    assert Unaffected(cb, st.calls, WriteCall(a, true, st.Read(store.src1)), b);
  }
}

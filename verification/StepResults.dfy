/** What each register operation of the interpreter leaves behind, opcode by opcode and in numbers: the
  * destination as arithmetic modulo 2^64 and the flags by what they mean. */
module StepResults {
  import opened Words
  import opened Ir
  import opened Machine

  /** The register file with one entry replaced; the none register drops the write. */
  function Put(regs: Regs, dst: Register, v: Word): Regs { if dst == 255 then regs else regs[dst := v] }

  /** Normal completion with these registers, the same memory trace and the same successor address. */
  predicate Leaves(o: Outcome, st: State, ip: Option<Word>, regs: Regs) {
    o.Done? && o.ip == ip && o.st.calls == st.calls && o.st.regs == regs
  }

  // ---- moves ---------------------------------------------------------------

  /** Moves, address computation, conditional moves (which test whether any flag is set) and exchange. */
  lemma MoveResults(cb: Callbacks, inst: MicroOpInst, st: State, ip: Option<Word>)
    ensures var o, x, regs := Step(cb, inst, st, ip), st.Read(inst.src1), st.regs;
            && (inst.code.MovRR? ==> Leaves(o, st, ip, Put(regs, inst.dst, x)))
            && (inst.code.MovRI? ==> Leaves(o, st, ip, Put(regs, inst.dst, inst.immediate)))
            && (inst.code.LeaRR? ==>
                  Leaves(o, st, ip, Put(regs, inst.dst, (x + inst.immediate) % 0x1_0000_0000_0000_0000)))
            && (inst.code.Cmovcc? ==> Leaves(o, st, ip, if regs[32] != 0 then Put(regs, inst.dst, x) else regs))
            && (inst.code.Setcc? ==> Leaves(o, st, ip, Put(regs, inst.dst, if regs[32] != 0 then 1 else 0)))
            && (inst.code.XchgRR? ==> Leaves(o, st, ip, Put(Put(regs, inst.src1, st.Read(inst.src2)), inst.src2, x)))
  {
  }

  /** Cdq and Cqo fill RDX with the sign of RAX. */
  lemma SignFillResult(cb: Callbacks, inst: MicroOpInst, st: State, ip: Option<Word>)
    requires inst.code.Cdq? || inst.code.Cqo?
    ensures Leaves(Step(cb, inst, st, ip), st, ip,
                   st.regs[2 := if st.regs[0] >= 0x8000_0000_0000_0000 then 0xFFFF_FFFF_FFFF_FFFF else 0])
  {
    WideStep(cb, inst, st, ip);
  }

  /** The operations that do nothing. */
  predicate Idle(code: MicroOpCode) {
    || code.Nop? || code.MulRI? || code.TraceExit? || code.MacroOpFused? || code.MacroOpPassthrough?
    || code.Cpuid? || code.Rdmsr? || code.Wrmsr? || code.Hlt? || code.Cli? || code.Sti? || code.Invlpg?
    || code.Mfence? || code.Xsave? || code.Xrstor? || code.Wbinvd? || code.Syscall? || code.Sysret?
    || code.IntVec? || code.Iret?
  }

  lemma IdleResult(cb: Callbacks, inst: MicroOpInst, st: State, ip: Option<Word>)
    requires Idle(inst.code)
    ensures Leaves(Step(cb, inst, st, ip), st, ip, st.regs)
  {
    IdleNoData(inst.code);
    IdleNoLogic(inst.code);
    IdleNoControl(inst.code);
  }

  lemma IdleNoData(code: MicroOpCode)
    requires Idle(code)
    ensures !IsMove(code) && !IsMemory(code) && !IsArith(code)
  {
  }

  lemma IdleNoLogic(code: MicroOpCode)
    requires Idle(code)
    ensures !IsWide(code) && !IsLogic(code)
  {
  }

  lemma IdleNoControl(code: MicroOpCode)
    requires Idle(code)
    ensures !IsBits(code) && !IsControl(code)
  {
  }

  // ---- flags ---------------------------------------------------------------

  /** The flags register with carry in bit 0, zero in bit 6, sign in bit 7, overflow in bit 11 and nothing else. */
  predicate FlagWord(w: Word, carry: bool, zero: bool, sign: bool, overflow: bool) {
    w == (if carry then 0x1 else 0) + (if zero then 0x40 else 0) + (if sign then 0x80 else 0)
         + (if overflow then 0x800 else 0)
  }

  /** The value is outside the range of a signed 64-bit number. */
  predicate Beyond(v: int) { v < -0x8000_0000_0000_0000 || v >= 0x8000_0000_0000_0000 }

  lemma SumFlags(x: Word, y: Word, c: Word, r: Word)
    requires c <= 1 && r == (x + y + c) % 0x1_0000_0000_0000_0000
    ensures FlagWord(ArithFlags(r, x, y, false), x + y >= 0x1_0000_0000_0000_0000, r == 0, Signed(r) < 0,
                     Beyond(Signed(x) + Signed(y) + c))
  {
    assert r == if x + y + c >= W64 then x + y + c - W64 else x + y + c;
  }

  lemma DifferenceFlags(x: Word, y: Word, c: Word, r: Word)
    requires c <= 1 && r == (x - y - c) % 0x1_0000_0000_0000_0000
    ensures FlagWord(ArithFlags(r, x, y, true), x < y, r == 0, Signed(r) < 0, Beyond(Signed(x) - Signed(y) - c))
  {
    assert r == if x - y - c < 0 then x - y - c + W64 else x - y - c;
  }

  // ---- addition and subtraction --------------------------------------------

  /** The second operand: an immediate or a register. */
  function Second(inst: MicroOpInst, st: State): Word {
    if inst.code.AddRI? || inst.code.SubRI? || inst.code.CmpRI? || inst.code.TestRI? then inst.immediate
    else st.Read(inst.src2)
  }

  /** The carry that comes in, for the two operations that add it. */
  function CarryIn(inst: MicroOpInst, st: State): Word {
    if inst.code.AdcRR? || inst.code.SbbRR? then st.regs[32] % 2 else 0
  }

  lemma WrapTwice(x: Word, y: Word, c: Word)
    requires c <= 1
    ensures AddW(AddW(x, y), c) == (x + y + c) % 0x1_0000_0000_0000_0000
    ensures SubW(SubW(x, y), c) == (x - y - c) % 0x1_0000_0000_0000_0000
  {
    assert AddW(x, y) == if x + y >= W64 then x + y - W64 else x + y;
    assert SubW(x, y) == if x < y then x - y + W64 else x - y;
  }

  lemma SumOf(inst: MicroOpInst, st: State)
    requires inst.code.AddRR? || inst.code.AddRI? || inst.code.AdcRR?
    ensures var x, y, c := st.Read(inst.src1), Second(inst, st), CarryIn(inst, st);
            StepArith(inst, st) == Arith(st, inst.dst, (x + y + c) % 0x1_0000_0000_0000_0000, x, y, false)
  {
    WrapTwice(st.Read(inst.src1), Second(inst, st), CarryIn(inst, st));
  }

  lemma DifferenceOf(inst: MicroOpInst, st: State)
    requires inst.code.SubRR? || inst.code.SubRI? || inst.code.SbbRR?
    ensures var x, y, c := st.Read(inst.src1), Second(inst, st), CarryIn(inst, st);
            StepArith(inst, st) == Arith(st, inst.dst, (x - y - c) % 0x1_0000_0000_0000_0000, x, y, true)
  {
    WrapTwice(st.Read(inst.src1), Second(inst, st), CarryIn(inst, st));
  }

  /** AddRR, AddRI and AdcRR: the sum modulo 2^64; CF speaks of the two operands alone, OF of the signed
    * sum with the carry that came in. */
  lemma SumResults(cb: Callbacks, inst: MicroOpInst, st: State, ip: Option<Word>) returns (w: Word)
    requires inst.code.AddRR? || inst.code.AddRI? || inst.code.AdcRR?
    ensures var x, y, c := st.Read(inst.src1), Second(inst, st), CarryIn(inst, st);
            var r := (x + y + c) % 0x1_0000_0000_0000_0000;
            && Leaves(Step(cb, inst, st, ip), st, ip, Put(st.regs, inst.dst, r)[32 := w])
            && FlagWord(w, x + y >= 0x1_0000_0000_0000_0000, r == 0, Signed(r) < 0,
                        Beyond(Signed(x) + Signed(y) + c))
  {
    var x: int, y: int, c: int := st.Read(inst.src1), Second(inst, st), CarryIn(inst, st);
    var r := (x + y + c) % 0x1_0000_0000_0000_0000;
    w := ArithFlags(r, x, y, false);
    ArithStep(cb, inst, st, ip);
    SumOf(inst, st);
    SumFlags(x, y, c, r);
  }

  /** SubRR, SubRI and SbbRR: the difference modulo 2^64. */
  lemma DifferenceResults(cb: Callbacks, inst: MicroOpInst, st: State, ip: Option<Word>) returns (w: Word)
    requires inst.code.SubRR? || inst.code.SubRI? || inst.code.SbbRR?
    ensures var x, y, c := st.Read(inst.src1), Second(inst, st), CarryIn(inst, st);
            var r := (x - y - c) % 0x1_0000_0000_0000_0000;
            && Leaves(Step(cb, inst, st, ip), st, ip, Put(st.regs, inst.dst, r)[32 := w])
            && FlagWord(w, x < y, r == 0, Signed(r) < 0, Beyond(Signed(x) - Signed(y) - c))
  {
    var x: int, y: int, c: int := st.Read(inst.src1), Second(inst, st), CarryIn(inst, st);
    var r := (x - y - c) % 0x1_0000_0000_0000_0000;
    w := ArithFlags(r, x, y, true);
    ArithStep(cb, inst, st, ip);
    DifferenceOf(inst, st);
    DifferenceFlags(x, y, c, r);
  }

  /** A comparison sets the flags of the difference and nothing else. */
  lemma CompareResults(cb: Callbacks, inst: MicroOpInst, st: State, ip: Option<Word>) returns (w: Word)
    requires inst.code.CmpRR? || inst.code.CmpRI?
    ensures var x, y := st.Read(inst.src1), Second(inst, st);
            && Leaves(Step(cb, inst, st, ip), st, ip, st.regs[32 := w])
            && FlagWord(w, x < y, x == y, Signed((x - y) % 0x1_0000_0000_0000_0000) < 0, Beyond(Signed(x) - Signed(y)))
  {
    var x, y := st.Read(inst.src1), Second(inst, st);
    w := ArithFlags(SubW(x, y), x, y, true);
    ArithStep(cb, inst, st, ip);
    DifferenceFlags(x, y, 0, SubW(x, y));
  }

  /** NegR: zero minus the operand. */
  lemma NegateResults(cb: Callbacks, inst: MicroOpInst, st: State, ip: Option<Word>) returns (w: Word)
    requires inst.code.NegR?
    ensures var x := st.Read(inst.src1);
            var r: Word := if x == 0 then 0 else 0x1_0000_0000_0000_0000 - x;
            && Leaves(Step(cb, inst, st, ip), st, ip, Put(st.regs, inst.dst, r)[32 := w])
            && FlagWord(w, x != 0, x == 0, 0 < x <= 0x8000_0000_0000_0000, x == 0x8000_0000_0000_0000)
  {
    var x := st.Read(inst.src1);
    w := ArithFlags(SubW(0, x), 0, x, true);
    ArithStep(cb, inst, st, ip);
    DifferenceFlags(0, x, 0, SubW(0, x));
  }

  /** XaddRR: the sum goes to the first operand and the old first operand to the second. */
  lemma ExchangeAddResults(cb: Callbacks, inst: MicroOpInst, st: State, ip: Option<Word>) returns (w: Word)
    requires inst.code.XaddRR?
    ensures var x, y := st.Read(inst.src1), st.Read(inst.src2);
            var r := (x + y) % 0x1_0000_0000_0000_0000;
            && Leaves(Step(cb, inst, st, ip), st, ip, Put(Put(st.regs, inst.src2, x), inst.src1, r)[32 := w])
            && FlagWord(w, x + y >= 0x1_0000_0000_0000_0000, r == 0, Signed(r) < 0, Beyond(Signed(x) + Signed(y)))
  {
    var x, y := st.Read(inst.src1), st.Read(inst.src2);
    w := ArithFlags(AddW(x, y), x, y, false);
    ArithStep(cb, inst, st, ip);
    SumFlags(x, y, 0, AddW(x, y));
  }

  // ---- logic ---------------------------------------------------------------

  /** Logic and shifts leave their result with CF and OF clear; tests set the same flags and leave no result. */
  lemma LogicResults(cb: Callbacks, inst: MicroOpInst, st: State, ip: Option<Word>) returns (w: Word)
    requires IsLogic(inst.code)
    ensures var x, y := st.Read(inst.src1), Second(inst, st);
            var tests := inst.code.TestRR? || inst.code.TestRI?;
            var r := if tests then AndW(x, y) else LogicResult(inst.code, x, y);
            && Leaves(Step(cb, inst, st, ip), st, ip, (if tests then st.regs else Put(st.regs, inst.dst, r))[32 := w])
            && FlagWord(w, false, r == 0, Signed(r) < 0, false)
  {
    var x, y := st.Read(inst.src1), Second(inst, st);
    w := LogicFlags(if inst.code.TestRR? || inst.code.TestRI? then AndW(x, y) else LogicResult(inst.code, x, y));
    LogicStep(cb, inst, st, ip);
  }
}

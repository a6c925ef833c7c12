/**
 * What a micro-operation does, as a function from machine state to outcome.
 * The two memory callbacks may keep state of their own, so what a read returns is an
 * arbitrary function of the whole history of calls made so far.
 */
module Machine {
  import opened Words
  import opened Ir

  datatype MemCall = ReadCall(addr: Word, wide: bool) | WriteCall(addr: Word, wide: bool, value: Word)

  type ReadFn = (seq<MemCall>, Word, bool) -> Word

  /** The callbacks that are installed; a write callback returns nothing. */
  datatype Callbacks = Callbacks(read: Option<ReadFn>, write: bool)

  type Regs = s: seq<Word> | |s| == 33 witness seq(33, _ => 0)

  /** Registers, and every callback invocation made so far. */
  datatype State = State(regs: Regs, calls: seq<MemCall>) {
    function Read(r: Register): Word { if r == RNone then 0 else regs[r] }

    function Write(r: Register, v: Word): State {
      if r == RNone then this else this.(regs := regs[r := v])
    }

    function Flags(): Word { regs[RFlags] }

    function SetFlags(v: Word): State { this.(regs := regs[RFlags := v]) }

    function MemWrite(cb: Callbacks, addr: Word, wide: bool, v: Word): State {
      if cb.write then this.(calls := calls + [WriteCall(addr, wide, v)]) else this
    }

    function MemReadValue(cb: Callbacks, addr: Word, wide: bool): Word {
      if cb.read.Some? then cb.read.value(calls, addr, wide) else 0
    }

    function MemRead(cb: Callbacks, addr: Word, wide: bool): State {
      if cb.read.Some? then this.(calls := calls + [ReadCall(addr, wide)]) else this
    }
  }

  /** Normal completion with the successor address so far, an `Err`, or an arithmetic panic. */
  datatype Outcome = Done(st: State, ip: Option<Word>) | Error(st: State, msg: string) | Panic(st: State)

  // ---- flags ---------------------------------------------------------------

  const CF: Word := 0x01
  const ZF: Word := 0x40
  const SF: Word := 0x80
  const OF: Word := 0x800

  /** `((x ^ y) & (x ^ z)) >> 63` keeps the top bits only. */
  predicate TopDiffersFromBoth(x: Word, y: Word, z: Word) {
    TopBit(x) != TopBit(y) && TopBit(x) != TopBit(z)
  }

  function ArithFlags(result: Word, a: Word, b: Word, isSub: bool): Word {
    var carry := if isSub then a < b else W64 - 1 - a < b;
    var overflow := if isSub then TopDiffersFromBoth(a, b, result) else TopDiffersFromBoth(result, a, b);
    (if result == 0 then ZF else 0) + (if TopBit(result) then SF else 0)
    + (if carry then CF else 0) + (if overflow then OF else 0)
  }

  function LogicFlags(result: Word): Word {
    (if result == 0 then ZF else 0) + (if TopBit(result) then SF else 0)
  }

  function FlagBit(flags: Word, mask: Word): bool
    requires mask > 0
  {
    (flags / mask) % 2 == 1
  }

  /** Clears the bits of `mask` and, if asked, sets them again. */
  function PutFlag(flags: Word, mask: Word, on: bool): Word {
    var cleared := AndW(flags, NotW(mask));
    if on then OrW(cleared, mask) else cleared
  }

  /** The condition of a JccRel, by the register number in its src2 field. */
  function Taken(condition: Register, flags: Word): bool {
    var zf := FlagBit(flags, ZF);
    var sf := FlagBit(flags, SF);
    var cf := FlagBit(flags, CF);
    var of := FlagBit(flags, OF);
    match condition
    case 0x0 => of
    case 0x1 => !of
    case 0x2 => cf
    case 0x3 => !cf
    case 0x4 => zf
    case 0x5 => !zf
    case 0x6 => cf || zf
    case 0x7 => !cf && !zf
    case 0x8 => sf
    case 0x9 => !sf
    case 0xC => sf != of
    case 0xD => sf == of
    case 0xE => zf || sf != of
    case 0xF => !zf && sf == of
    case _ => false
  }

  // ---- instruction groups --------------------------------------------------

  /** Writes a sum or difference and then its flags. */
  function Arith(st: State, dst: Register, result: Word, a: Word, b: Word, isSub: bool): State {
    st.Write(dst, result).SetFlags(ArithFlags(result, a, b, isSub))
  }

  /** INC and DEC: flags as for adding or subtracting one, except that the carry found in the
    * flags register after the destination write is kept. */
  function ArithKeepCarry(st: State, dst: Register, result: Word, a: Word, isSub: bool): State {
    var written := st.Write(dst, result);
    var cf := AndW(written.Flags(), CF);
    var updated := written.SetFlags(ArithFlags(result, a, 1, isSub));
    updated.SetFlags(OrW(AndW(updated.Flags(), NotW(CF)), cf))
  }

  function Logic(st: State, dst: Register, result: Word): State {
    st.Write(dst, result).SetFlags(LogicFlags(result))
  }

  function LogicResult(code: MicroOpCode, a: Word, b: Word): Word {
    var shift := b % 64;
    if code.AndRR? then AndW(a, b)
    else if code.OrRR? then OrW(a, b)
    else if code.XorRR? then XorW(a, b)
    else if code.ShlRR? then ShlW(a, shift)
    else if code.ShrRR? then ShrW(a, shift)
    else SarW(a, shift)
  }

  function SignedMultiply(st: State, dst: Register, a: Word, b: Word): State {
    var result := Signed(a) * Signed(b);
    var written := st.Write(dst, Low64(result));
    written.SetFlags(PutFlag(written.Flags(), CF + OF, result != Signed(Low64(result))))
  }

  function Multiply(st: State, b: Word): State {
    var result := st.Read(RAX) * b;
    var written := st.Write(RAX, Low64(result)).Write(RDX, Low64(result / W64));
    written.SetFlags(PutFlag(written.Flags(), CF + OF, result >= W64))
  }

  function Divide(st: State, divisor: Word, ip: Option<Word>): Outcome {
    if divisor == 0 then Error(st, "Division by zero")
    else
      var dividend := st.Read(RDX) * W64 + st.Read(RAX);
      Done(st.Write(RAX, Low64(dividend / divisor)).Write(RDX, Low64(dividend % divisor)), ip)
  }

  /** The i128 dividend: the low half is sign-extended before it is OR-ed in, so a negative
    * low half hides the high one. */
  function SignedDividend(hi: Word, lo: Word): int {
    if TopBit(lo) then Signed(lo) else Signed(hi) * W64 + lo
  }

  function SignedDivide(st: State, divisor: Word, ip: Option<Word>): Outcome {
    if divisor == 0 then Error(st, "Signed division by zero")
    else
      var dividend := SignedDividend(st.Read(RDX), st.Read(RAX));
      var d := Signed(divisor);
      if dividend == -HALF64 * W64 && d == -1 then Panic(st)
      else
        Done(st.Write(RAX, Low64(TruncDiv(dividend, d))).Write(RDX, Low64(TruncMod(dividend, d))), ip)
  }

  function BitTestFlags(flags: Word, base: Word, bit: nat): Word {
    OrW(AndW(flags, NotW(CF)), AndW(ShrW(base, bit), 1))
  }

  function BitTestResult(code: MicroOpCode, base: Word, mask: Word): Word {
    if code.BtrRI? then AndW(base, NotW(mask))
    else if code.BtsRI? then OrW(base, mask)
    else if code.BtcRI? then XorW(base, mask)
    else base
  }

  function BitTest(st: State, inst: MicroOpInst): State {
    var base := st.Read(inst.src1);
    var bit := inst.immediate % 64;
    var flagged := st.SetFlags(BitTestFlags(st.Flags(), base, bit));
    if inst.code.BtRI? then flagged else flagged.Write(inst.dst, BitTestResult(inst.code, base, ShlW(1, bit)))
  }

  function BitScan(st: State, dst: Register, src: Word, forward: bool): State {
    if src == 0 then st.SetFlags(OrW(st.Flags(), ZF))
    else
      var written := st.Write(dst, if forward then TrailingZeros(src) else HighestBit(src));
      written.SetFlags(AndW(written.Flags(), NotW(ZF)))
  }

  function PopCount(st: State, dst: Register, src: Word): State {
    var count := CountOnes(src);
    var written := st.Write(dst, count);
    written.SetFlags(if count == 0 then OrW(written.Flags(), ZF) else AndW(written.Flags(), NotW(ZF)))
  }

  function Extend(src: Word, size: Byte, signed: bool): Word {
    match size
    case 1 => if signed then SignExtend(src, 0x80) else src % 0x100
    case 2 => if signed then SignExtend(src, 0x8000) else src % 0x1_0000
    case 4 => if signed then SignExtend(src, 0x8000_0000) else src % 0x1_0000_0000
    case _ => src
  }

  /** Pushes a word: RSP first, then the callback. */
  function Push(cb: Callbacks, st: State, v: Word): State {
    var rsp := SubW(st.Read(RSP), 8);
    st.Write(RSP, rsp).MemWrite(cb, rsp, true, v)
  }

  function Load(cb: Callbacks, st: State, dst: Register, addr: Word, wide: bool): State {
    st.MemRead(cb, addr, wide).Write(dst, st.MemReadValue(cb, addr, wide))
  }

  function CompareExchange(st: State, inst: MicroOpInst): State {
    var mem := st.Read(inst.src1);
    if st.Read(RAX) == mem then
      var written := st.Write(inst.src1, st.Read(inst.src2));
      written.SetFlags(OrW(written.Flags(), ZF))
    else
      var written := st.Write(RAX, mem);
      written.SetFlags(AndW(written.Flags(), NotW(ZF)))
  }

  // ---- one instruction, by group -------------------------------------------

  function StepMove(inst: MicroOpInst, st: State): State {
    var a := st.Read(inst.src1);
    if inst.code.MovRR? then st.Write(inst.dst, a)
    else if inst.code.MovRI? then st.Write(inst.dst, inst.immediate)
    else if inst.code.LeaRR? then st.Write(inst.dst, AddW(a, inst.immediate))
    else if inst.code.MovsxRR? then st.Write(inst.dst, Extend(a, inst.operandSize, true))
    else if inst.code.MovzxRR? then st.Write(inst.dst, Extend(a, inst.operandSize, false))
    else if inst.code.Movsxd? then st.Write(inst.dst, Extend(a, 4, true))
    else if inst.code.Cmovcc? then if st.Flags() != 0 then st.Write(inst.dst, a) else st
    else if inst.code.Setcc? then st.Write(inst.dst, if st.Flags() != 0 then 1 else 0)
    else if inst.code.XchgRR? then st.Write(inst.src1, st.Read(inst.src2)).Write(inst.src2, a)
    else st
  }

  function StepMemory(cb: Callbacks, inst: MicroOpInst, st: State): State {
    var a := st.Read(inst.src1);
    var b := st.Read(inst.src2);
    var imm := inst.immediate;
    var wide := inst.operandSize == 8;
    if inst.code.MovRM? then Load(cb, st, inst.dst, AddW(a, imm), wide)
    else if inst.code.MovMR? then st.MemWrite(cb, AddW(st.Read(inst.dst), imm), wide, a)
    else if inst.code.MovMI? then st.MemWrite(cb, AddW(st.Read(inst.dst), imm), wide, inst.src1)
    else if inst.code.LoadRR? then Load(cb, st, inst.dst, AddW(a, b), wide)
    else if inst.code.StoreRR? then st.MemWrite(cb, AddW(st.Read(inst.dst), b), wide, a)
    else st
  }

  function StepArith(inst: MicroOpInst, st: State): State {
    var a := st.Read(inst.src1);
    var b := st.Read(inst.src2);
    var imm := inst.immediate;
    if inst.code.AddRR? then Arith(st, inst.dst, AddW(a, b), a, b, false)
    else if inst.code.AddRI? then Arith(st, inst.dst, AddW(a, imm), a, imm, false)
    else if inst.code.SubRR? then Arith(st, inst.dst, SubW(a, b), a, b, true)
    else if inst.code.SubRI? then Arith(st, inst.dst, SubW(a, imm), a, imm, true)
    else if inst.code.AdcRR? then Arith(st, inst.dst, AddW(AddW(a, b), st.Flags() % 2), a, b, false)
    else if inst.code.SbbRR? then Arith(st, inst.dst, SubW(SubW(a, b), st.Flags() % 2), a, b, true)
    else if inst.code.CmpRR? then st.SetFlags(ArithFlags(SubW(a, b), a, b, true))
    else if inst.code.CmpRI? then st.SetFlags(ArithFlags(SubW(a, imm), a, imm, true))
    else if inst.code.NegR? then Arith(st, inst.dst, SubW(0, a), 0, a, true)
    else if inst.code.IncR? then ArithKeepCarry(st, inst.dst, AddW(a, 1), a, false)
    else if inst.code.DecR? then ArithKeepCarry(st, inst.dst, SubW(a, 1), a, true)
    else if inst.code.CmpxchgRR? then CompareExchange(st, inst)
    else if inst.code.XaddRR? then
      st.Write(inst.src2, a).Write(inst.src1, AddW(a, b)).SetFlags(ArithFlags(AddW(a, b), a, b, false))
    else st
  }

  function StepWide(inst: MicroOpInst, st: State, ip: Option<Word>): Outcome {
    var a := st.Read(inst.src1);
    if inst.code.MulRR? then Done(Multiply(st, a), ip)
    else if inst.code.ImulRR? then Done(SignedMultiply(st, inst.dst, a, st.Read(inst.src2)), ip)
    else if inst.code.ImulRI? then Done(SignedMultiply(st, inst.dst, a, inst.immediate), ip)
    else if inst.code.DivRR? then Divide(st, a, ip)
    else if inst.code.IdivRR? then SignedDivide(st, a, ip)
    else if inst.code.Cdq? || inst.code.Cqo? then Done(st.Write(RDX, if TopBit(st.Read(RAX)) then W64 - 1 else 0), ip)
    else Done(st, ip)
  }

  function StepLogic(inst: MicroOpInst, st: State): State {
    var a := st.Read(inst.src1);
    var b := st.Read(inst.src2);
    if inst.code.TestRR? then st.SetFlags(LogicFlags(AndW(a, b)))
    else if inst.code.TestRI? then st.SetFlags(LogicFlags(AndW(a, inst.immediate)))
    else Logic(st, inst.dst, LogicResult(inst.code, a, b))
  }

  function StepBits(inst: MicroOpInst, st: State): State {
    var a := st.Read(inst.src1);
    var shift := inst.immediate % 64;
    if inst.code.NotR? then st.Write(inst.dst, NotW(a))
    else if inst.code.RolRI? then st.Write(inst.dst, RolW(a, shift))
    else if inst.code.RclRI? then st.Write(inst.dst, RolW(a, shift))
    else if inst.code.RorRI? then st.Write(inst.dst, RorW(a, shift))
    else if inst.code.RcrRI? then st.Write(inst.dst, RorW(a, shift))
    else if inst.code.BsfRR? then BitScan(st, inst.dst, a, true)
    else if inst.code.BsrRR? then BitScan(st, inst.dst, a, false)
    else if inst.code.PopcntRR? then PopCount(st, inst.dst, a)
    else BitTest(st, inst)
  }

  function StepControl(cb: Callbacks, inst: MicroOpInst, st: State, ip: Option<Word>): Outcome {
    var a := st.Read(inst.src1);
    var relative := AddW(st.Read(RAX), inst.immediate);
    var rsp := st.Read(RSP);
    if inst.code.PushR? then Done(Push(cb, st, a), ip)
    else if inst.code.PopR? then
      Done(st.MemRead(cb, rsp, true).Write(RSP, AddW(rsp, 8)).Write(inst.dst, st.MemReadValue(cb, rsp, true)), ip)
    else if inst.code.JmpRel? then Done(st, Some(relative))
    else if inst.code.JmpAbs? then Done(st, Some(a))
    else if inst.code.JccRel? then Done(st, if Taken(inst.src2, st.Flags()) then Some(relative) else ip)
    else if inst.code.CallRel? then Done(Push(cb, st, st.Read(RAX)), Some(relative))
    else if inst.code.CallAbs? then
      var pushed := Push(cb, st, st.Read(RAX));
      Done(pushed, Some(pushed.Read(inst.src1)))
    else if inst.code.Ret? then
      Done(st.MemRead(cb, rsp, true).Write(RSP, AddW(rsp, 8)), Some(st.MemReadValue(cb, rsp, true)))
    else Done(st, ip)
  }

  predicate IsMove(code: MicroOpCode) {
    code.MovRR? || code.MovRI? || code.LeaRR? || code.MovsxRR? || code.MovzxRR? || code.Movsxd?
    || code.Cmovcc? || code.Setcc? || code.XchgRR?
  }

  predicate IsMemory(code: MicroOpCode) {
    code.MovRM? || code.MovMR? || code.MovMI? || code.LoadRR? || code.StoreRR?
  }

  predicate IsArith(code: MicroOpCode) {
    code.AddRR? || code.AddRI? || code.SubRR? || code.SubRI? || code.AdcRR? || code.SbbRR? || code.CmpRR?
    || code.CmpRI? || code.NegR? || code.IncR? || code.DecR? || code.CmpxchgRR? || code.XaddRR?
  }

  predicate IsWide(code: MicroOpCode) {
    code.MulRR? || code.ImulRR? || code.ImulRI? || code.DivRR? || code.IdivRR? || code.Cdq? || code.Cqo?
  }

  predicate IsLogic(code: MicroOpCode) {
    code.TestRR? || code.TestRI? || code.AndRR? || code.OrRR? || code.XorRR? || code.ShlRR? || code.ShrRR?
    || code.SarRR?
  }

  predicate IsBits(code: MicroOpCode) {
    code.NotR? || code.RolRI? || code.RclRI? || code.RorRI? || code.RcrRI? || code.BsfRR? || code.BsrRR?
    || code.PopcntRR? || code.BtRI? || code.BtrRI? || code.BtsRI? || code.BtcRI?
  }

  predicate IsControl(code: MicroOpCode) {
    code.PushR? || code.PopR? || code.JmpRel? || code.JmpAbs? || code.JccRel? || code.CallRel? || code.CallAbs?
    || code.Ret?
  }

  // The groups are disjoint.

  lemma ArithIsOwnGroup(code: MicroOpCode)
    requires IsArith(code)
    ensures !IsMove(code) && !IsMemory(code)
  {
  }

  lemma WideIsOwnGroup(code: MicroOpCode)
    requires IsWide(code)
    ensures !IsMove(code) && !IsMemory(code) && !IsArith(code)
  {
  }

  lemma LogicIsOwnGroup(code: MicroOpCode)
    requires IsLogic(code)
    ensures !IsMove(code) && !IsMemory(code) && !IsArith(code) && !IsWide(code)
  {
  }

  lemma BitsIsOwnGroup(code: MicroOpCode)
    requires IsBits(code)
    ensures !IsMove(code) && !IsMemory(code) && !IsArith(code) && !IsWide(code) && !IsLogic(code)
  {
  }

  lemma ControlIsOwnGroup(code: MicroOpCode)
    requires IsControl(code)
    ensures !IsMove(code) && !IsMemory(code) && !IsArith(code) && !IsWide(code) && !IsLogic(code) && !IsBits(code)
  {
  }

  /** Nop, MulRI, TraceExit, the macro-ops and the system operations change nothing. */
  function Step(cb: Callbacks, inst: MicroOpInst, st: State, ip: Option<Word>): Outcome {
    if IsMove(inst.code) then Done(StepMove(inst, st), ip)
    else if IsMemory(inst.code) then Done(StepMemory(cb, inst, st), ip)
    else if IsArith(inst.code) then Done(StepArith(inst, st), ip)
    else if IsWide(inst.code) then StepWide(inst, st, ip)
    else if IsLogic(inst.code) then Done(StepLogic(inst, st), ip)
    else if IsBits(inst.code) then Done(StepBits(inst, st), ip)
    else if IsControl(inst.code) then StepControl(cb, inst, st, ip)
    else Done(st, ip)
  }

  lemma ArithStep(cb: Callbacks, inst: MicroOpInst, st: State, ip: Option<Word>)
    requires IsArith(inst.code)
    ensures Step(cb, inst, st, ip) == Done(StepArith(inst, st), ip)
  {
    ArithIsOwnGroup(inst.code);
  }

  lemma WideStep(cb: Callbacks, inst: MicroOpInst, st: State, ip: Option<Word>)
    requires IsWide(inst.code)
    ensures Step(cb, inst, st, ip) == StepWide(inst, st, ip)
  {
    WideIsOwnGroup(inst.code);
  }

  lemma LogicStep(cb: Callbacks, inst: MicroOpInst, st: State, ip: Option<Word>)
    requires IsLogic(inst.code)
    ensures Step(cb, inst, st, ip) == Done(StepLogic(inst, st), ip)
  {
    LogicIsOwnGroup(inst.code);
  }

  lemma BitsStep(cb: Callbacks, inst: MicroOpInst, st: State, ip: Option<Word>)
    requires IsBits(inst.code)
    ensures Step(cb, inst, st, ip) == Done(StepBits(inst, st), ip)
  {
    BitsIsOwnGroup(inst.code);
  }

  lemma ControlStep(cb: Callbacks, inst: MicroOpInst, st: State, ip: Option<Word>)
    requires IsControl(inst.code)
    ensures Step(cb, inst, st, ip) == StepControl(cb, inst, st, ip)
  {
    ControlIsOwnGroup(inst.code);
  }

  // ---- a block -------------------------------------------------------------

  /** The operations after which the rest of a block is not executed. */
  predicate EndsBlock(code: MicroOpCode) {
    code.Ret? || code.JmpRel? || code.JmpAbs? || code.JccRel? || code.CallRel? || code.CallAbs?
    || code.TraceExit? || code.Hlt?
  }

  function Run(cb: Callbacks, ops: seq<MicroOpInst>, st: State, ip: Option<Word>): Outcome {
    if ops == [] then Done(st, ip)
    else
      var o := Step(cb, ops[0], st, ip);
      if o.Done? && !EndsBlock(ops[0].code) then Run(cb, ops[1..], o.st, o.ip) else o
  }
}

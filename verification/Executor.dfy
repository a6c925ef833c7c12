/**
 * The interpreter itself: a register array updated in place, the callback log, and the loop
 * over a block. Every method is proved against the functions of module Machine.
 */
module Executor {
  import opened Words
  import opened Ir
  import opened Machine

  class RegisterFile {
    const regs: array<Word>

    ghost predicate Valid()
    {
      regs.Length == 33
    }

    ghost function Contents(): Regs
      requires Valid()
      reads regs
    {
      regs[..]
    }

    constructor ()
      ensures Valid() && fresh(regs)
      ensures forall i :: 0 <= i < 33 ==> regs[i] == 0
    {
      regs := new Word[33](_ => 0);
    }

    function Read(reg: Register): (v: Word)
      requires Valid()
      reads regs
      ensures forall calls :: v == State(Contents(), calls).Read(reg)
    {
      if reg == RNone then 0 else regs[reg]
    }

    method Write(reg: Register, value: Word)
      requires Valid()
      modifies regs
      ensures forall calls :: State(Contents(), calls) == State(old(Contents()), calls).Write(reg, value)
    {
      if reg != RNone {
        regs[reg] := value;
      }
    }

    function GetFlags(): Word
      requires Valid()
      reads regs
    {
      regs[RFlags]
    }

    method SetFlags(flags: Word)
      requires Valid()
      modifies regs
      ensures Contents() == old(Contents())[RFlags := flags]
    {
      regs[RFlags] := flags;
    }

    method UpdateFlagsArith(result: Word, a: Word, b: Word, isSub: bool)
      requires Valid()
      modifies regs
      ensures Contents() == old(Contents())[RFlags := ArithFlags(result, a, b, isSub)]
    {
      var flags := 0;
      if result == 0 { flags := flags + ZF; }
      if TopBit(result) { flags := flags + SF; }
      var carry := if isSub then a < b else W64 - 1 - a < b;
      if carry { flags := flags + CF; }
      var overflow := if isSub then TopDiffersFromBoth(a, b, result) else TopDiffersFromBoth(result, a, b);
      if overflow { flags := flags + OF; }
      SetFlags(flags);
    }

    method UpdateFlagsLogic(result: Word)
      requires Valid()
      modifies regs
      ensures Contents() == old(Contents())[RFlags := LogicFlags(result)]
    {
      var flags := 0;
      if result == 0 { flags := flags + ZF; }
      if TopBit(result) { flags := flags + SF; }
      SetFlags(flags);
    }
  }

  /** How `execute_inst` returns. */
  datatype Status = Ok | Err(msg: string) | Panicked

  function AsOutcome(status: Status, st: State, ip: Option<Word>): Outcome {
    match status
    case Ok => Done(st, ip)
    case Err(msg) => Error(st, msg)
    case Panicked => Panic(st)
  }

  class Executor {
    const file: RegisterFile
    const memoryRead: Option<ReadFn>
    const memoryWrite: bool
    var calls: seq<MemCall>

    constructor (memoryRead: Option<ReadFn>, memoryWrite: bool)
      ensures Valid() && fresh(file) && fresh(file.regs)
      ensures St().calls == [] && forall i :: 0 <= i < 33 ==> St().regs[i] == 0
    {
      var f := new RegisterFile();
      this.file := f;
      this.memoryRead := memoryRead;
      this.memoryWrite := memoryWrite;
      calls := [];
    }

    ghost predicate Valid()
    {
      file.Valid()
    }

    ghost function St(): State
      requires Valid()
      reads this, file.regs
    {
      State(file.Contents(), calls)
    }

    ghost function Cb(): Callbacks { Callbacks(memoryRead, memoryWrite) }

    method CallRead(addr: Word, wide: bool) returns (v: Word)
      requires Valid()
      modifies this
      ensures v == old(St()).MemReadValue(Cb(), addr, wide)
      ensures St() == old(St()).MemRead(Cb(), addr, wide)
    {
      v := 0;
      if memoryRead.Some? {
        v := memoryRead.value(calls, addr, wide);
        calls := calls + [ReadCall(addr, wide)];
      }
    }

    method CallWrite(addr: Word, wide: bool, v: Word)
      requires Valid()
      modifies this
      ensures St() == old(St()).MemWrite(Cb(), addr, wide, v)
    {
      if memoryWrite {
        calls := calls + [WriteCall(addr, wide, v)];
      }
    }

    method WriteArith(dst: Register, result: Word, a: Word, b: Word, isSub: bool)
      requires Valid()
      modifies file.regs
      ensures St() == Arith(old(St()), dst, result, a, b, isSub)
    {
      file.Write(dst, result);
      file.UpdateFlagsArith(result, a, b, isSub);
    }

    method PushWord(v: Word)
      requires Valid()
      modifies this, file.regs
      ensures St() == Push(Cb(), old(St()), v)
    {
      var rsp := SubW(file.Read(RSP), 8);
      file.Write(RSP, rsp);
      CallWrite(rsp, true, v);
    }

    method ExecuteMove(inst: MicroOpInst)
      requires Valid()
      modifies file.regs
      ensures St() == StepMove(inst, old(St()))
    {
      var a := file.Read(inst.src1);
      match inst.code {
        case MovRR => file.Write(inst.dst, a);
        case MovRI => file.Write(inst.dst, inst.immediate);
        case LeaRR => file.Write(inst.dst, AddW(a, inst.immediate));
        case MovsxRR => file.Write(inst.dst, Extend(a, inst.operandSize, true));
        case MovzxRR => file.Write(inst.dst, Extend(a, inst.operandSize, false));
        case Movsxd => file.Write(inst.dst, Extend(a, 4, true));
        case Cmovcc =>
          if file.GetFlags() != 0 {
            file.Write(inst.dst, a);
          }
        case Setcc => file.Write(inst.dst, if file.GetFlags() != 0 then 1 else 0);
        case XchgRR =>
          var b := file.Read(inst.src2);
          file.Write(inst.src1, b);
          file.Write(inst.src2, a);
        case _ =>
      }
    }

    method ExecuteMemory(inst: MicroOpInst)
      requires Valid()
      modifies this, file.regs
      ensures St() == StepMemory(Cb(), inst, old(St()))
    {
      var a := file.Read(inst.src1);
      var b := file.Read(inst.src2);
      var imm := inst.immediate;
      var wide := inst.operandSize == 8;
      match inst.code {
        case MovRM =>
          var v := CallRead(AddW(a, imm), wide);
          file.Write(inst.dst, v);
        case MovMR => CallWrite(AddW(file.Read(inst.dst), imm), wide, a);
        case MovMI => CallWrite(AddW(file.Read(inst.dst), imm), wide, inst.src1);
        case LoadRR =>
          var v := CallRead(AddW(a, b), wide);
          file.Write(inst.dst, v);
        case StoreRR => CallWrite(AddW(file.Read(inst.dst), b), wide, a);
        case _ =>
      }
    }

    method ExecuteArith(inst: MicroOpInst)
      requires Valid()
      modifies file.regs
      ensures St() == StepArith(inst, old(St()))
    {
      var a := file.Read(inst.src1);
      var b := file.Read(inst.src2);
      var imm := inst.immediate;
      match inst.code {
        case AddRR => WriteArith(inst.dst, AddW(a, b), a, b, false);
        case AddRI => WriteArith(inst.dst, AddW(a, imm), a, imm, false);
        case SubRR => WriteArith(inst.dst, SubW(a, b), a, b, true);
        case SubRI => WriteArith(inst.dst, SubW(a, imm), a, imm, true);
        case AdcRR => WriteArith(inst.dst, AddW(AddW(a, b), file.GetFlags() % 2), a, b, false);
        case SbbRR => WriteArith(inst.dst, SubW(SubW(a, b), file.GetFlags() % 2), a, b, true);
        case CmpRR => file.UpdateFlagsArith(SubW(a, b), a, b, true);
        case CmpRI => file.UpdateFlagsArith(SubW(a, imm), a, imm, true);
        case NegR => WriteArith(inst.dst, SubW(0, a), 0, a, true);
        case IncR => StepByOne(inst.dst, AddW(a, 1), a, false);
        case DecR => StepByOne(inst.dst, SubW(a, 1), a, true);
        case CmpxchgRR => ExchangeIfEqual(inst);
        case XaddRR =>
          file.Write(inst.src2, a);
          WriteArith(inst.src1, AddW(a, b), a, b, false);
        case _ =>
      }
    }

    method ExecuteWide(inst: MicroOpInst) returns (status: Status)
      requires Valid()
      modifies file.regs
      ensures forall ip :: AsOutcome(status, St(), ip) == StepWide(inst, old(St()), ip)
    {
      var a := file.Read(inst.src1);
      status := Ok;
      match inst.code {
        case MulRR => WriteProduct(a);
        case ImulRR => WriteSignedProduct(inst.dst, a, file.Read(inst.src2));
        case ImulRI => WriteSignedProduct(inst.dst, a, inst.immediate);
        case DivRR => status := DivideWide(a);
        case IdivRR => status := DivideWideSigned(a);
        case Cdq | Cqo => file.Write(RDX, if TopBit(file.Read(RAX)) then W64 - 1 else 0);
        case _ =>
      }
    }

    method ExecuteLogic(inst: MicroOpInst)
      requires Valid()
      modifies file.regs
      ensures St() == StepLogic(inst, old(St()))
    {
      var a := file.Read(inst.src1);
      var b := file.Read(inst.src2);
      if inst.code.TestRR? {
        file.UpdateFlagsLogic(AndW(a, b));
      } else if inst.code.TestRI? {
        file.UpdateFlagsLogic(AndW(a, inst.immediate));
      } else {
        WriteLogic(inst.dst, LogicResult(inst.code, a, b));
      }
    }

    method ExecuteBits(inst: MicroOpInst)
      requires Valid()
      modifies file.regs
      ensures St() == StepBits(inst, old(St()))
    {
      var a := file.Read(inst.src1);
      var shift := inst.immediate % 64;
      if inst.code.NotR? {
        file.Write(inst.dst, NotW(a));
      } else if inst.code.RolRI? || inst.code.RclRI? {
        file.Write(inst.dst, RolW(a, shift));
      } else if inst.code.RorRI? || inst.code.RcrRI? {
        file.Write(inst.dst, RorW(a, shift));
      } else if inst.code.BsfRR? || inst.code.BsrRR? {
        ScanBits(inst.dst, a, inst.code.BsfRR?);
      } else if inst.code.PopcntRR? {
        CountBits(inst.dst, a);
      } else {
        TestBit(inst);
      }
    }

    method ExecuteControl(inst: MicroOpInst, ip: Option<Word>) returns (nextIp: Option<Word>)
      requires Valid()
      modifies this, file.regs
      ensures Done(St(), nextIp) == StepControl(Cb(), inst, old(St()), ip)
    {
      nextIp := ip;
      match inst.code {
        case PushR => PushWord(file.Read(inst.src1));
        case PopR =>
          var rsp := file.Read(RSP);
          var v := CallRead(rsp, true);
          file.Write(RSP, AddW(rsp, 8));
          file.Write(inst.dst, v);
        case JmpRel => nextIp := Some(AddW(file.Read(RAX), inst.immediate));
        case JmpAbs => nextIp := Some(file.Read(inst.src1));
        case JccRel =>
          if Taken(inst.src2, file.GetFlags()) {
            nextIp := Some(AddW(file.Read(RAX), inst.immediate));
          }
        case CallRel =>
          var current := file.Read(RAX);
          PushWord(current);
          nextIp := Some(AddW(current, inst.immediate));
        case CallAbs =>
          PushWord(file.Read(RAX));
          nextIp := Some(file.Read(inst.src1));
        case Ret =>
          var rsp := file.Read(RSP);
          var v := CallRead(rsp, true);
          file.Write(RSP, AddW(rsp, 8));
          nextIp := Some(v);
        case _ =>
      }
    }

    /** One instruction; the arms of the interpreter's match are spread over seven methods. */
    method ExecuteInst(inst: MicroOpInst, ip: Option<Word>) returns (status: Status, nextIp: Option<Word>)
      requires Valid()
      modifies this, file.regs
      ensures AsOutcome(status, St(), nextIp) == Step(Cb(), inst, old(St()), ip)
    {
      status, nextIp := Ok, ip;
      if IsMove(inst.code) {
        ExecuteMove(inst);
      } else if IsMemory(inst.code) {
        ExecuteMemory(inst);
      } else if IsArith(inst.code) {
        ExecuteArith(inst);
      } else if IsWide(inst.code) {
        status := ExecuteWide(inst);
      } else if IsLogic(inst.code) {
        ExecuteLogic(inst);
      } else if IsBits(inst.code) {
        ExecuteBits(inst);
      } else if IsControl(inst.code) {
        nextIp := ExecuteControl(inst, ip);
      }
    }

    method StepByOne(dst: Register, result: Word, a: Word, isSub: bool)
      requires Valid()
      modifies file.regs
      ensures St() == ArithKeepCarry(old(St()), dst, result, a, isSub)
    {
      file.Write(dst, result);
      var cf := AndW(file.GetFlags(), CF);
      file.UpdateFlagsArith(result, a, 1, isSub);
      file.SetFlags(OrW(AndW(file.GetFlags(), NotW(CF)), cf));
    }

    method ExchangeIfEqual(inst: MicroOpInst)
      requires Valid()
      modifies file.regs
      ensures St() == CompareExchange(old(St()), inst)
    {
      var mem := file.Read(inst.src1);
      if file.Read(RAX) == mem {
        file.Write(inst.src1, file.Read(inst.src2));
        file.SetFlags(OrW(file.GetFlags(), ZF));
      } else {
        file.Write(RAX, mem);
        file.SetFlags(AndW(file.GetFlags(), NotW(ZF)));
      }
    }

    method WriteProduct(b: Word)
      requires Valid()
      modifies file.regs
      ensures St() == Multiply(old(St()), b)
    {
      var result := file.Read(RAX) * b;
      file.Write(RAX, Low64(result));
      file.Write(RDX, Low64(result / W64));
      file.SetFlags(PutFlag(file.GetFlags(), CF + OF, result >= W64));
    }

    method WriteSignedProduct(dst: Register, a: Word, b: Word)
      requires Valid()
      modifies file.regs
      ensures St() == SignedMultiply(old(St()), dst, a, b)
    {
      var result := Signed(a) * Signed(b);
      file.Write(dst, Low64(result));
      file.SetFlags(PutFlag(file.GetFlags(), CF + OF, result != Signed(Low64(result))));
    }

    method DivideWide(divisor: Word) returns (status: Status)
      requires Valid()
      modifies file.regs
      ensures forall ip :: AsOutcome(status, St(), ip) == Divide(old(St()), divisor, ip)
    {
      if divisor == 0 {
        return Err("Division by zero");
      }
      var dividend := file.Read(RDX) * W64 + file.Read(RAX);
      file.Write(RAX, Low64(dividend / divisor));
      file.Write(RDX, Low64(dividend % divisor));
      status := Ok;
    }

    method DivideWideSigned(divisor: Word) returns (status: Status)
      requires Valid()
      modifies file.regs
      ensures forall ip :: AsOutcome(status, St(), ip) == SignedDivide(old(St()), divisor, ip)
    {
      if divisor == 0 {
        return Err("Signed division by zero");
      }
      var dividend := SignedDividend(file.Read(RDX), file.Read(RAX));
      var d := Signed(divisor);
      if dividend == -HALF64 * W64 && d == -1 {
        return Panicked;
      }
      file.Write(RAX, Low64(TruncDiv(dividend, d)));
      file.Write(RDX, Low64(TruncMod(dividend, d)));
      status := Ok;
    }

    method WriteLogic(dst: Register, result: Word)
      requires Valid()
      modifies file.regs
      ensures St() == Logic(old(St()), dst, result)
    {
      file.Write(dst, result);
      file.UpdateFlagsLogic(result);
    }

    method TestBit(inst: MicroOpInst)
      requires Valid()
      modifies file.regs
      ensures St() == BitTest(old(St()), inst)
    {
      var base := file.Read(inst.src1);
      var bit := inst.immediate % 64;
      file.SetFlags(BitTestFlags(file.GetFlags(), base, bit));
      if !inst.code.BtRI? {
        file.Write(inst.dst, BitTestResult(inst.code, base, ShlW(1, bit)));
      }
    }

    method CountBits(dst: Register, src: Word)
      requires Valid()
      modifies file.regs
      ensures St() == PopCount(old(St()), dst, src)
    {
      var count := CountOnes(src);
      file.Write(dst, count);
      file.SetFlags(if count == 0 then OrW(file.GetFlags(), ZF) else AndW(file.GetFlags(), NotW(ZF)));
    }

    method ScanBits(dst: Register, src: Word, forward: bool)
      requires Valid()
      modifies file.regs
      ensures St() == BitScan(old(St()), dst, src, forward)
    {
      if src == 0 {
        file.SetFlags(OrW(file.GetFlags(), ZF));
      } else {
        file.Write(dst, if forward then TrailingZeros(src) else HighestBit(src));
        file.SetFlags(AndW(file.GetFlags(), NotW(ZF)));
      }
    }

    /** Runs the operations in use until one of them ends the block or fails. */
    method ExecuteBlock(tb: TranslationBlock) returns (status: Status, nextIp: Option<Word>)
      requires Valid() && tb.Valid()
      requires tb.microOps as object != file.regs
      modifies this, file.regs
      ensures AsOutcome(status, St(), nextIp) == Run(Cb(), old(tb.Contents()), old(St()), None)
    {
      var pc := 0;
      status, nextIp := Ok, None;
      ghost var ops := tb.Contents();
      ghost var whole := Run(Cb(), ops, St(), None);
      while pc < tb.microOpCount
        invariant 0 <= pc <= tb.microOpCount == |ops|
        invariant status == Ok && tb.Contents() == ops
        invariant Run(Cb(), ops[pc..], St(), nextIp) == whole
      {
        var inst := tb.microOps[pc];
        assert inst == ops[pc] && ops[pc..][1..] == ops[pc + 1..];
        pc := pc + 1;
        status, nextIp := ExecuteInst(inst, nextIp);
        if status != Ok {
          return;
        }
        if EndsBlock(inst.code) {
          return;
        }
      }
    }
  }
}

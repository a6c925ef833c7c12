/** What the bit, extension and multiplication operations of the interpreter leave in every register. */
module BitResults {
  import opened Words
  import opened Bits
  import opened Ir
  import opened Machine
  import opened BitOps
  import WideArith
  import opened StepResults

  /** Only the destination and the flags may differ. */
  ghost predicate OthersKept(o: Outcome, st: State, ip: Option<Word>, dst: Register) {
    && o.Done? && o.ip == ip && o.st.calls == st.calls
    && forall q: Register :: q != dst && q != 32 ==> o.st.Read(q) == st.Read(q)
  }

  // ---- extensions ----------------------------------------------------------

  /** MovsxRR, MovzxRR and Movsxd: the destination keeps the low part of the operand and lies in the signed or
    * the unsigned range of that size; for any other size it is the operand. */
  lemma ExtendResults(cb: Callbacks, inst: MicroOpInst, st: State, ip: Option<Word>) returns (r: Word)
    requires inst.code.MovsxRR? || inst.code.MovzxRR? || inst.code.Movsxd?
    ensures var x, size := st.Read(inst.src1), if inst.code.Movsxd? then 4 else inst.operandSize;
            && Leaves(Step(cb, inst, st, ip), st, ip, Put(st.regs, inst.dst, r))
            && (size != 1 && size != 2 && size != 4 ==> r == x)
            && (size == 1 ==> r % 0x100 == x % 0x100
                              && if inst.code.MovzxRR? then r < 0x100 else -0x80 <= Signed(r) < 0x80)
            && (size == 2 ==> r % 0x1_0000 == x % 0x1_0000
                              && if inst.code.MovzxRR? then r < 0x1_0000 else -0x8000 <= Signed(r) < 0x8000)
            && (size == 4 ==> r % 0x1_0000_0000 == x % 0x1_0000_0000
                              && if inst.code.MovzxRR? then r < 0x1_0000_0000
                                 else -0x8000_0000 <= Signed(r) < 0x8000_0000)
  {
    var x := st.Read(inst.src1);
    var size: Byte := if inst.code.Movsxd? then 4 else inst.operandSize;
    r := Extend(x, size, !inst.code.MovzxRR?);
    if size == 1 || size == 2 || size == 4 {
      ExtensionIsExact(x, size, !inst.code.MovzxRR?);
    }
  }

  // ---- rotations and complements -------------------------------------------

  /** NotR and the rotations write their destination and leave every other register, the flags included. */
  lemma RotationResults(cb: Callbacks, inst: MicroOpInst, st: State, ip: Option<Word>) returns (r: Word)
    requires inst.code.NotR? || Rotates(inst.code)
    ensures Leaves(Step(cb, inst, st, ip), st, ip, Put(st.regs, inst.dst, r))
  {
    var x, n := st.Read(inst.src1), inst.immediate % 64;
    r := if inst.code.NotR? then NotW(x)
         else if inst.code.RolRI? || inst.code.RclRI? then RolW(x, n) else RorW(x, n);
    BitsStep(cb, inst, st, ip);
  }

  // ---- bit tests -----------------------------------------------------------

  lemma BitTestStep(cb: Callbacks, inst: MicroOpInst, st: State, ip: Option<Word>)
    requires inst.code.BtRI? || SetsBit(inst.code)
    ensures Step(cb, inst, st, ip) == Done(BitTest(st, inst), ip)
  {
    BitsStep(cb, inst, st, ip);
  }

  /** BtRI copies the tested bit into CF and changes nothing else; the other three also set, reset or
    * complement that bit in their destination. */
  lemma BitTestResults(cb: Callbacks, inst: MicroOpInst, st: State, ip: Option<Word>, k: nat)
    requires (inst.code.BtRI? || SetsBit(inst.code)) && inst.dst != 32 && k < 64
    ensures var o, x := Step(cb, inst, st, ip), st.Read(inst.src1);
            && OthersKept(o, st, ip, if inst.code.BtRI? then RNone else inst.dst)
            && Bit(o.st.regs[32], k) == (if k == 0 then Bit(x, inst.immediate % 64) else Bit(st.regs[32], k))
            && (SetsBit(inst.code) && inst.dst < 32 ==>
                  Bit(o.st.regs[inst.dst], k)
                  == if k != inst.immediate % 64 then Bit(x, k)
                     else if inst.code.BtrRI? then false else if inst.code.BtsRI? then true else !Bit(x, k))
  {
    BitTestStep(cb, inst, st, ip);
    BitTestCarry(st, inst, k);
    if SetsBit(inst.code) && inst.dst < 32 {
      BitSetValue(inst, st);
      BitTestResultBits(inst.code, st.Read(inst.src1), inst.immediate % 64, k);
    }
  }

  // ---- scans and counts ----------------------------------------------------

  lemma ZeroFlagSet(flags: Word, k: nat)
    requires k < 64
    ensures Bit(OrW(flags, ZF), k) == (k == 6 || Bit(flags, k))
    ensures Bit(AndW(flags, NotW(ZF)), k) == (k != 6 && Bit(flags, k))
  {
    LogicBits(flags, ZF, k);
    LogicBits(flags, NotW(ZF), k);
    NotBits(ZF, k);
    ZeroFlagBit(k);
  }

  lemma {:induction false} PowerBit(n: nat, k: nat)
    ensures Bit(Pow2(n), k) == (k == n)
    decreases n
  {
    if n == 0 {
      if k > 0 {
        ZeroHasNoBits(k - 1);
      }
    } else if k > 0 {
      PowerBit(n - 1, k - 1);
    }
  }

  lemma ZeroFlagBit(k: nat)
    ensures Bit(ZF, k) == (k == 6)
  {
    PowerBit(6, k);
    assert Pow2(6) == 64 by {
      assert Pow2(3) == 8;
    }
  }

  /** BSF and BSR: ZF says whether the operand is zero, every other flag bit is kept, and the destination gets
    * the index of the lowest or highest set bit, or is left alone if there is none. */
  lemma ScanResults(cb: Callbacks, inst: MicroOpInst, st: State, ip: Option<Word>, k: nat)
    requires (inst.code.BsfRR? || inst.code.BsrRR?) && inst.dst < 32 && k < 64
    ensures var o, x := Step(cb, inst, st, ip), st.Read(inst.src1);
            && OthersKept(o, st, ip, inst.dst)
            && Bit(o.st.regs[32], k) == (if k == 6 then x == 0 else Bit(st.regs[32], k))
            && (x == 0 ==> o.st.regs[inst.dst] == st.regs[inst.dst])
            && (x > 0 ==> var i := o.st.regs[inst.dst];
                          Bit(x, i) && if inst.code.BsfRR? then k < i ==> !Bit(x, k) else k > i ==> !Bit(x, k))
  {
    var x := st.Read(inst.src1);
    BitsStep(cb, inst, st, ip);
    ScansAndCounts(st, inst.dst, x, k);
    ZeroFlagSet(st.regs[32], k);
  }

  /** POPCNT: the number of set bits, and ZF says whether it is zero. */
  lemma CountResults(cb: Callbacks, inst: MicroOpInst, st: State, ip: Option<Word>, k: nat)
    requires inst.code.PopcntRR? && inst.dst < 32 && k < 64
    ensures var o, x := Step(cb, inst, st, ip), st.Read(inst.src1);
            && OthersKept(o, st, ip, inst.dst) && o.st.regs[inst.dst] == Ones(x, 64)
            && Bit(o.st.regs[32], k) == (if k == 6 then Ones(x, 64) == 0 else Bit(st.regs[32], k))
  {
    BitsStep(cb, inst, st, ip);
    ScansAndCounts(st, inst.dst, st.Read(inst.src1), k);
    ZeroFlagSet(st.regs[32], k);
  }

  /** CmpxchgRR: if RAX equals the first operand that operand gets the second one and ZF is set, otherwise RAX
    * gets the first operand and ZF is cleared. */
  lemma CompareExchangeResults(cb: Callbacks, inst: MicroOpInst, st: State, ip: Option<Word>, k: nat)
    requires inst.code.CmpxchgRR? && inst.src1 < 32 && k < 64
    ensures var o, x := Step(cb, inst, st, ip), st.Read(inst.src1);
            var changed: Register := if st.regs[0] == x then inst.src1 else 0;
            && OthersKept(o, st, ip, changed)
            && o.st.regs[changed] == (if st.regs[0] == x then st.Read(inst.src2) else x)
            && Bit(o.st.regs[32], k) == (if k == 6 then st.regs[0] == x else Bit(st.regs[32], k))
  {
    ArithStep(cb, inst, st, ip);
    ZeroFlagSet(st.regs[32], k);
  }

  // ---- multiplication ------------------------------------------------------

  lemma PairBit(k: nat)
    ensures Bit(CF + OF, k) == (k == 0 || k == 11)
  {
    if k > 0 {
      PowerBit(10, k - 1);
      TenthPower();
    }
  }

  lemma TenthPower()
    ensures Pow2(10) == 0x400
  {
    assert Pow2(5) == 0x20;
  }

  /** Carry and overflow are both set or both cleared, and every other flag bit is kept. */
  lemma PairPut(flags: Word, on: bool, k: nat)
    requires k < 64
    ensures Bit(PutFlag(flags, CF + OF, on), k) == if k == 0 || k == 11 then on else Bit(flags, k)
  {
    var mask := CF + OF;
    PairBit(k);
    LogicBits(flags, NotW(mask), k);
    NotBits(mask, k);
    LogicBits(AndW(flags, NotW(mask)), mask, k);
  }

  /** MulRR: RDX and RAX together hold the product of RAX and the operand; CF and OF are set exactly if the
    * product needs RDX. */
  lemma MultiplyResults(cb: Callbacks, inst: MicroOpInst, st: State, ip: Option<Word>, k: nat)
    requires inst.code.MulRR? && k < 64
    ensures var o, x := Step(cb, inst, st, ip), st.Read(inst.src1);
            var p: int, low: int, high: int := st.regs[0] * x, o.st.regs[0], o.st.regs[2];
            && o.Done? && o.ip == ip && o.st.calls == st.calls
            && high * 0x1_0000_0000_0000_0000 + low == p
            && Bit(o.st.regs[32], k)
               == (if k == 0 || k == 11 then p >= 0x1_0000_0000_0000_0000 else Bit(st.regs[32], k))
            && forall q: Register :: q != 0 && q != 2 && q != 32 ==> o.st.Read(q) == st.Read(q)
  {
    var x: int, a: int := st.Read(inst.src1), st.regs[0];
    var p := a * x;
    WideStep(cb, inst, st, ip);
    WideArith.MultiplyEffect(st, st.Read(inst.src1), p);
    PairPut(st.regs[32], p >= W64, k);
  }

  /** ImulRR and ImulRI: the signed product modulo 2^64; CF and OF are set exactly if it does not fit. */
  lemma SignedMultiplyResults(cb: Callbacks, inst: MicroOpInst, st: State, ip: Option<Word>, k: nat)
    requires (inst.code.ImulRR? || inst.code.ImulRI?) && inst.dst < 32 && k < 64
    ensures var y := if inst.code.ImulRR? then st.Read(inst.src2) else inst.immediate;
            var o, p := Step(cb, inst, st, ip), Signed(st.Read(inst.src1)) * Signed(y);
            && OthersKept(o, st, ip, inst.dst) && o.st.regs[inst.dst] == p % 0x1_0000_0000_0000_0000
            && Bit(o.st.regs[32], k) == (if k == 0 || k == 11 then Beyond(p) else Bit(st.regs[32], k))
  {
    var y := if inst.code.ImulRR? then st.Read(inst.src2) else inst.immediate;
    var p := Signed(st.Read(inst.src1)) * Signed(y);
    WideStep(cb, inst, st, ip);
    FitsIffKept(p);
    PairPut(st.regs[32], p != Signed(Low64(p)), k);
  }

  lemma FitsIffKept(p: int)
    ensures p == Signed(Low64(p)) <==> !Beyond(p)
  {
    WideArith.SignedOfLowIff(p);
  }
}

/** The interpreter's bit-level operations, by what they do to each single bit. */
module BitOps {
  import opened Words
  import opened Bits
  import opened Ir
  import opened Machine
  import WideArith

  lemma PowerOf64()
    ensures Pow2(64) == W64 && Pow2(63) == HALF64
  {
    PowerOf32();
    assert Pow2(40) == 0x100 * W32;
    assert Pow2(48) == 0x1_0000 * W32;
    assert Pow2(56) == 0x100_0000 * W32;
    assert Pow2(63) == 0x8000_0000 * W32;
  }

  // ---- bits of words -------------------------------------------------------

  lemma {:induction false} NoBitBeyond(a: nat, n: nat, k: nat)
    requires a < Pow2(n) && k >= n
    ensures !Bit(a, k)
    decreases n
  {
    if n == 0 {
      ZeroHasNoBits(k);
    } else {
      NoBitBeyond(a / 2, n - 1, k - 1);
    }
  }

  lemma {:induction false} BitOfBitwise(op: BitOp, a: nat, b: nat, k: nat)
    ensures Bit(Bitwise(op, a, b), k) == OpBit(op, Bit(a, k), Bit(b, k))
    decreases k
  {
    if a == 0 && b == 0 {
      ZeroHasNoBits(k);
    } else if k > 0 {
      BitOfBitwise(op, a / 2, b / 2, k - 1);
    }
  }

  lemma {:induction false} BitwiseBelow(op: BitOp, a: nat, b: nat, n: nat)
    requires a < Pow2(n) && b < Pow2(n)
    ensures Bitwise(op, a, b) < Pow2(n)
    decreases n
  {
    if n > 0 && (a > 0 || b > 0) {
      BitwiseBelow(op, a / 2, b / 2, n - 1);
    }
  }

  lemma BitwiseFits(op: BitOp, a: Word, b: Word)
    ensures Low64(Bitwise(op, a, b)) == Bitwise(op, a, b)
  {
    PowerOf64();
    BitwiseBelow(op, a, b, 64);
  }

  lemma LogicBit(op: BitOp, a: Word, b: Word, k: nat)
    ensures Bit(Low64(Bitwise(op, a, b)), k) == OpBit(op, Bit(a, k), Bit(b, k))
  {
    BitwiseFits(op, a, b);
    BitOfBitwise(op, a, b, k);
  }

  lemma LogicBits(a: Word, b: Word, k: nat)
    ensures Bit(AndW(a, b), k) == (Bit(a, k) && Bit(b, k))
    ensures Bit(OrW(a, b), k) == (Bit(a, k) || Bit(b, k))
    ensures Bit(XorW(a, b), k) == (Bit(a, k) != Bit(b, k))
  {
    LogicBit(And, a, b, k);
    LogicBit(Or, a, b, k);
    LogicBit(Xor, a, b, k);
  }

  lemma {:induction false} BitOfComplement(a: nat, n: nat, k: nat)
    requires a < Pow2(n) && k < n
    ensures Bit(Pow2(n) - 1 - a, k) == !Bit(a, k)
    decreases n
  {
    if k > 0 {
      assert (Pow2(n) - 1 - a) / 2 == Pow2(n - 1) - 1 - a / 2;
      BitOfComplement(a / 2, n - 1, k - 1);
    }
  }

  lemma NotBits(a: Word, k: nat)
    requires k < 64
    ensures Bit(NotW(a), k) == !Bit(a, k)
  {
    PowerOf64();
    BitOfComplement(a, 64, k);
  }

  lemma {:induction false} TopIsBit(a: nat, n: nat)
    requires a < 2 * Pow2(n)
    ensures Bit(a, n) == (a >= Pow2(n))
    decreases n
  {
    if n > 0 {
      TopIsBit(a / 2, n - 1);
    }
  }

  lemma {:induction false} BelowTop(a: nat, n: nat, k: nat)
    requires k < n
    ensures Bit(a + Pow2(n), k) == Bit(a, k)
    decreases n
  {
    if k > 0 {
      assert (a + Pow2(n)) / 2 == a / 2 + Pow2(n - 1);
      BelowTop(a / 2, n - 1, k - 1);
    }
  }

  lemma LowBitsKept(a: Word, k: nat)
    requires k < 63
    ensures Bit(a % HALF64, k) == Bit(a, k)
  {
    PowerOf64();
    if TopBit(a) {
      assert a % HALF64 == a - HALF64;
      BelowTop(a - HALF64, 63, k);
    } else {
      assert a % HALF64 == a;
    }
  }

  lemma TopBits(a: Word, k: nat)
    ensures Bit(a, 63) == TopBit(a)
    ensures k < 63 ==> Bit(a % HALF64, k) == Bit(a, k)
    ensures k >= 64 ==> !Bit(a, k)
  {
    PowerOf64();
    TopIsBit(a, 63);
    if k < 63 {
      LowBitsKept(a, k);
    } else if k >= 64 {
      NoBitBeyond(a, 64, k);
    }
  }

  // ---- shifts and rotations ------------------------------------------------

  lemma Doubled(a: Word)
    ensures (2 * a) % W64 == 2 * (a % HALF64)
    ensures a / HALF64 == if TopBit(a) then 1 else 0
  {
  }

  lemma DoubledBits(a: Word, low: nat, k: nat)
    requires low <= 1 && k < 64
    ensures Bit((2 * a) % W64 + low, k) == if k == 0 then low == 1 else Bit(a, k - 1)
  {
    Doubled(a);
    if k > 0 {
      assert (2 * (a % HALF64) + low) / 2 == a % HALF64;
      TopBits(a, k - 1);
    }
  }

  lemma {:induction false} ShlBits(a: Word, n: nat, k: nat)
    requires k < 64
    ensures Bit(ShlW(a, n), k) == (k >= n && Bit(a, k - n))
    decreases n
  {
    if n > 0 {
      ShlBits((2 * a) % W64, n - 1, k);
      if k >= n - 1 {
        DoubledBits(a, 0, k - (n - 1));
      }
    }
  }

  lemma {:induction false} ShrBits(a: Word, n: nat, k: nat)
    ensures Bit(ShrW(a, n), k) == Bit(a, k + n)
    decreases n
  {
    if n > 0 {
      ShrBits(a / 2, n - 1, k);
    }
  }

  lemma SarBits(a: Word, n: nat, k: nat)
    requires k < 64
    ensures Bit(SarW(a, n), k) == if k + n < 64 then Bit(a, k + n) else TopBit(a)
  {
    var inner := if TopBit(a) then NotW(a) else a;
    ShrBits(inner, n, k);
    TopBits(inner, k + n);
    NotBits(ShrW(inner, n), k);
    if k + n < 64 {
      NotBits(a, k + n);
    }
  }

  lemma RolOnce(a: Word, k: nat)
    requires k < 64
    ensures Bit((2 * a) % W64 + a / HALF64, k) == if k == 0 then Bit(a, 63) else Bit(a, k - 1)
  {
    Doubled(a);
    DoubledBits(a, a / HALF64, k);
    TopBits(a, 63);
  }

  lemma {:induction false} RolBits(a: Word, n: nat, k: nat)
    requires n < 64 && k < 64
    ensures Bit(RolW(a, n), k) == Bit(a, if k >= n then k - n else k + 64 - n)
    decreases n
  {
    if n > 0 {
      RolBits((2 * a) % W64 + a / HALF64, n - 1, k);
      RolOnce(a, if k >= n - 1 then k - (n - 1) else k + 64 - (n - 1));
    }
  }

  lemma RorOnce(a: Word, k: nat)
    requires k < 64
    ensures Bit(a / 2 + (a % 2) * HALF64, k) == Bit(a, if k == 63 then 0 else k + 1)
  {
    PowerOf64();
    TopIsBit(a / 2 + (a % 2) * HALF64, 63);
    if k < 63 {
      BelowTop(a / 2, 63, k);
    }
  }

  lemma {:induction false} RorBits(a: Word, n: nat, k: nat)
    requires n < 64 && k < 64
    ensures Bit(RorW(a, n), k) == Bit(a, if k + n < 64 then k + n else k + n - 64)
    decreases n
  {
    if n > 0 {
      RorBits(a / 2 + (a % 2) * HALF64, n - 1, k);
      RorOnce(a, if k + (n - 1) < 64 then k + (n - 1) else k + (n - 1) - 64);
    }
  }

  lemma OneBit(n: nat, k: nat)
    requires n < 64 && k < 64
    ensures Bit(ShlW(1, n), k) == (k == n)
  {
    ShlBits(1, n, k);
    if k > n {
      ZeroHasNoBits(k - n - 1);
    }
  }

  // ---- every bit of every result -------------------------------------------

  predicate IsBitwise(code: MicroOpCode) {
    code.AndRR? || code.OrRR? || code.XorRR? || code.ShlRR? || code.ShrRR? || code.SarRR?
    || code.NotR? || code.RolRI? || code.RclRI? || code.RorRI? || code.RcrRI?
    || code.BtrRI? || code.BtsRI? || code.BtcRI?
  }

  /** What the bit-setting operations do to the chosen bit, and to the others. */
  predicate ChosenBit(code: MicroOpCode, chosen: bool, bit: bool) {
    if code.BtrRI? then !chosen && bit else if code.BtsRI? then chosen || bit else chosen != bit
  }

  /** Bit `k` of the result, from the bits of the operands and the count. */
  predicate ResultBit(code: MicroOpCode, a: Word, b: Word, imm: Word, k: nat)
    requires IsBitwise(code)
  {
    var n, m := b % 64, imm % 64;
    if code.AndRR? then Bit(a, k) && Bit(b, k)
    else if code.OrRR? then Bit(a, k) || Bit(b, k)
    else if code.XorRR? then Bit(a, k) != Bit(b, k)
    else if code.ShlRR? then k >= n && Bit(a, k - n)
    else if code.ShrRR? then k + n < 64 && Bit(a, k + n)
    else if code.SarRR? then Bit(a, if k + n < 64 then k + n else 63)
    else if code.NotR? then !Bit(a, k)
    else if code.RolRI? || code.RclRI? then Bit(a, if k >= m then k - m else k + 64 - m)
    else if code.RorRI? || code.RcrRI? then Bit(a, if k + m < 64 then k + m else k + m - 64)
    else ChosenBit(code, k == m, Bit(a, k))
  }

  lemma LogicResultBits(code: MicroOpCode, a: Word, b: Word, k: nat)
    requires IsBitwise(code) && IsLogic(code) && k < 64
    ensures Bit(LogicResult(code, a, b), k) == ResultBit(code, a, b, 0, k)
  {
    if code.AndRR? || code.OrRR? || code.XorRR? {
      LogicBits(a, b, k);
    } else if code.ShlRR? {
      ShlBits(a, b % 64, k);
    } else {
      ShiftedRight(code, a, b, k);
    }
  }

  lemma ShiftedRight(code: MicroOpCode, a: Word, b: Word, k: nat)
    requires (code.ShrRR? || code.SarRR?) && k < 64
    ensures Bit(LogicResult(code, a, b), k) == ResultBit(code, a, b, 0, k)
  {
    TopBits(a, k + b % 64);
    if code.ShrRR? {
      ShrBits(a, b % 64, k);
    } else {
      SarBits(a, b % 64, k);
    }
  }

  lemma MaskedBits(a: Word, m: nat, k: nat)
    requires m < 64 && k < 64
    ensures Bit(AndW(a, NotW(ShlW(1, m))), k) == (k != m && Bit(a, k))
    ensures Bit(OrW(a, ShlW(1, m)), k) == (k == m || Bit(a, k))
    ensures Bit(XorW(a, ShlW(1, m)), k) == ((k == m) != Bit(a, k))
  {
    var mask := ShlW(1, m);
    OneBit(m, k);
    NotBits(mask, k);
    LogicBits(a, NotW(mask), k);
    LogicBits(a, mask, k);
  }

  lemma BitTestResultIs(code: MicroOpCode, a: Word, mask: Word)
    requires code.BtrRI? || code.BtsRI? || code.BtcRI?
    ensures BitTestResult(code, a, mask)
            == if code.BtrRI? then AndW(a, NotW(mask)) else if code.BtsRI? then OrW(a, mask) else XorW(a, mask)
  {
  }

  lemma BitTestResultBits(code: MicroOpCode, a: Word, m: nat, k: nat)
    requires m < 64 && k < 64 && (code.BtrRI? || code.BtsRI? || code.BtcRI?)
    ensures Bit(BitTestResult(code, a, ShlW(1, m)), k) == ChosenBit(code, k == m, Bit(a, k))
  {
    BitTestResultIs(code, a, ShlW(1, m));
    MaskedBits(a, m, k);
  }

  predicate Rotates(code: MicroOpCode) { code.RolRI? || code.RclRI? || code.RorRI? || code.RcrRI? }

  predicate SetsBit(code: MicroOpCode) { code.BtrRI? || code.BtsRI? || code.BtcRI? }

  lemma RotatedBits(inst: MicroOpInst, st: State, k: nat)
    requires (inst.code.NotR? || Rotates(inst.code)) && inst.dst < 32 && k < 64
    ensures Bit(StepBits(inst, st).Read(inst.dst), k) == ResultBit(inst.code, st.Read(inst.src1), 0, inst.immediate, k)
  {
    var a, m := st.Read(inst.src1), inst.immediate % 64;
    if inst.code.NotR? {
      NotBits(a, k);
    } else if inst.code.RolRI? || inst.code.RclRI? {
      RolBits(a, m, k);
    } else {
      RorBits(a, m, k);
    }
  }

  lemma BitSetValue(inst: MicroOpInst, st: State)
    requires SetsBit(inst.code) && inst.dst < 32
    ensures StepBits(inst, st) == BitTest(st, inst)
    ensures BitTest(st, inst).Read(inst.dst)
            == BitTestResult(inst.code, st.Read(inst.src1), ShlW(1, inst.immediate % 64))
  {
  }

  lemma BitSetBits(inst: MicroOpInst, st: State, k: nat)
    requires SetsBit(inst.code) && inst.dst < 32 && k < 64
    ensures Bit(StepBits(inst, st).Read(inst.dst), k) == ResultBit(inst.code, st.Read(inst.src1), 0, inst.immediate, k)
  {
    BitSetValue(inst, st);
    BitTestResultBits(inst.code, st.Read(inst.src1), inst.immediate % 64, k);
  }

  lemma OperandsUnused(code: MicroOpCode, a: Word, b: Word, imm: Word, k: nat)
    requires IsBitwise(code)
    ensures IsLogic(code) ==> ResultBit(code, a, b, imm, k) == ResultBit(code, a, b, 0, k)
    ensures !IsLogic(code) ==> ResultBit(code, a, b, imm, k) == ResultBit(code, a, 0, imm, k)
  {
  }

  /** The state after a logic, shift, rotate or bit-setting operation. */
  function BitwiseState(inst: MicroOpInst, st: State): State {
    if IsLogic(inst.code) then StepLogic(inst, st) else StepBits(inst, st)
  }

  lemma BitsKeepsCalls(inst: MicroOpInst, st: State)
    requires IsBits(inst.code)
    ensures StepBits(inst, st).calls == st.calls
  {
    if inst.code.BsfRR? || inst.code.BsrRR? || inst.code.PopcntRR? {
      ScansKeepCalls(inst, st);
    } else if !inst.code.NotR? && !Rotates(inst.code) {
      BitTestKeepsCalls(st, inst);
    }
  }

  lemma ScansKeepCalls(inst: MicroOpInst, st: State)
    requires inst.code.BsfRR? || inst.code.BsrRR? || inst.code.PopcntRR?
    ensures StepBits(inst, st).calls == st.calls
  {
  }

  lemma BitTestKeepsCalls(st: State, inst: MicroOpInst)
    ensures BitTest(st, inst).calls == st.calls
  {
  }

  lemma BitwiseKeepsCalls(inst: MicroOpInst, st: State)
    requires IsBitwise(inst.code)
    ensures BitwiseState(inst, st).calls == st.calls
  {
    if !IsLogic(inst.code) {
      BitsKeepsCalls(inst, st);
    }
  }

  lemma BitwiseStep(cb: Callbacks, inst: MicroOpInst, st: State, ip: Option<Word>)
    requires IsBitwise(inst.code)
    ensures Step(cb, inst, st, ip) == Done(BitwiseState(inst, st), ip)
  {
    if IsLogic(inst.code) {
      LogicStep(cb, inst, st, ip);
    } else {
      BitsStep(cb, inst, st, ip);
    }
  }

  /** The result of a logic, shift, rotate or bit-setting operation, bit by bit. */
  lemma BitwiseResult(cb: Callbacks, inst: MicroOpInst, st: State, ip: Option<Word>, k: nat)
    requires IsBitwise(inst.code) && inst.dst < 32 && k < 64
    ensures var o := Step(cb, inst, st, ip);
            && o.Done? && o.ip == ip && o.st.calls == st.calls
            && Bit(o.st.Read(inst.dst), k)
               == ResultBit(inst.code, st.Read(inst.src1), st.Read(inst.src2), inst.immediate, k)
  {
    BitwiseStep(cb, inst, st, ip);
    BitwiseKeepsCalls(inst, st);
    OperandsUnused(inst.code, st.Read(inst.src1), st.Read(inst.src2), inst.immediate, k);
    if IsLogic(inst.code) {
      LogicResultBits(inst.code, st.Read(inst.src1), st.Read(inst.src2), k);
    } else if SetsBit(inst.code) {
      BitSetBits(inst, st, k);
    } else {
      RotatedBits(inst, st, k);
    }
  }

  /** A bit test copies the tested bit into CF and changes no other bit of the flags. */
  lemma BitTestCarry(st: State, inst: MicroOpInst, k: nat)
    requires inst.code.BtRI? || inst.code.BtrRI? || inst.code.BtsRI? || inst.code.BtcRI?
    requires inst.dst != RFlags && k < 64
    ensures Bit(BitTest(st, inst).Flags(), k)
            == if k == 0 then Bit(st.Read(inst.src1), inst.immediate % 64) else Bit(st.Flags(), k)
  {
    var base, m := st.Read(inst.src1), inst.immediate % 64;
    var shifted := ShrW(base, m);
    LogicBits(AndW(st.Flags(), NotW(CF)), AndW(shifted, 1), k);
    LogicBits(st.Flags(), NotW(CF), k);
    LogicBits(shifted, 1, k);
    NotBits(CF, k);
    ShrBits(base, m, k);
    OneBit(0, k);
    assert ShlW(1, 0) == 1;
  }

  lemma KeptCarryBits(st: State, dst: Register, result: Word, a: Word, isSub: bool, k: nat)
    requires k < 64
    ensures var d := ArithKeepCarry(st, dst, result, a, isSub);
            Bit(d.Flags(), k)
            == if k == 0 then Bit(st.Write(dst, result).Flags(), 0) else Bit(ArithFlags(result, a, 1, isSub), k)
  {
    var flags := ArithFlags(result, a, 1, isSub);
    var before := st.Write(dst, result).Flags();
    LogicBits(AndW(flags, NotW(CF)), AndW(before, CF), k);
    LogicBits(flags, NotW(CF), k);
    LogicBits(before, CF, k);
    NotBits(CF, k);
    OneBit(0, k);
    assert ShlW(1, 0) == 1;
  }

  /** One more or one less, as IncR and DecR compute it. */
  function ByOne(code: MicroOpCode, a: Word): Word { if code.IncR? then AddW(a, 1) else SubW(a, 1) }

  lemma IncDecStep(cb: Callbacks, inst: MicroOpInst, st: State, ip: Option<Word>)
    requires inst.code.IncR? || inst.code.DecR?
    ensures var a := st.Read(inst.src1);
            Step(cb, inst, st, ip) == Done(ArithKeepCarry(st, inst.dst, ByOne(inst.code, a), a, inst.code.DecR?), ip)
  {
    ArithStep(cb, inst, st, ip);
  }

  /** IncR and DecR change the destination by one modulo 2^64 and set every flag as adding or subtracting
    * one does, except that CF keeps the value it has once the destination is written. */
  lemma IncDecKeepCarry(cb: Callbacks, inst: MicroOpInst, st: State, ip: Option<Word>, k: nat)
    requires (inst.code.IncR? || inst.code.DecR?) && k < 64
    ensures var o := Step(cb, inst, st, ip);
            var a := st.Read(inst.src1);
            var r := ByOne(inst.code, a);
            && o.Done? && o.ip == ip && o.st.calls == st.calls
            && (forall q: Register :: q != RFlags ==> o.st.Read(q) == st.Write(inst.dst, r).Read(q))
            && Bit(o.st.Flags(), k)
               == if k == 0 then Bit(st.Write(inst.dst, r).Flags(), 0) else Bit(ArithFlags(r, a, 1, inst.code.DecR?), k)
  {
    IncDecStep(cb, inst, st, ip);
    KeptCarryBits(st, inst.dst, ByOne(inst.code, st.Read(inst.src1)), st.Read(inst.src1), inst.code.DecR?, k);
  }

  // ---- scans and counts ----------------------------------------------------

  lemma {:induction false} TrailingIsLowest(a: Word, k: nat)
    requires a > 0
    ensures Bit(a, TrailingZeros(a))
    ensures k < TrailingZeros(a) ==> !Bit(a, k)
    decreases a
  {
    if a % 2 == 0 {
      TrailingIsLowest(a / 2, if k > 0 then k - 1 else 0);
    }
  }

  /** The number of set bits among the lowest `n`. */
  function Ones(a: nat, n: nat): nat
    decreases n
  {
    if n == 0 then 0 else Ones(a, n - 1) + (if Bit(a, n - 1) then 1 else 0)
  }

  lemma {:induction false} OnesFromBelow(a: nat, n: nat)
    requires n > 0
    ensures Ones(a, n) == a % 2 + Ones(a / 2, n - 1)
    decreases n
  {
    if n > 1 {
      OnesFromBelow(a, n - 1);
    } else {
      assert Ones(a, 0) == 0;
    }
  }

  lemma {:induction false} CountOnesIs(a: Word, n: nat)
    requires a < Pow2(n)
    ensures CountOnes(a) == Ones(a, n)
    decreases n
  {
    if n > 0 {
      OnesFromBelow(a, n);
      CountOnesIs(a / 2, n - 1);
    }
  }

  /** BSF and BSR leave the index of the lowest or highest set bit of a nonzero source, and POPCNT the
    * number of its set bits. */
  lemma ScansAndCounts(st: State, dst: Register, src: Word, k: nat)
    requires dst < 32
    ensures src > 0 ==> var i := BitScan(st, dst, src, true).Read(dst); Bit(src, i) && (k < i ==> !Bit(src, k))
    ensures src > 0 ==> var i := BitScan(st, dst, src, false).Read(dst); Bit(src, i) && (k > i ==> !Bit(src, k))
    ensures PopCount(st, dst, src).Read(dst) == Ones(src, 64)
  {
    PowerOf64();
    CountOnesIs(src, 64);
    if src > 0 {
      TrailingIsLowest(src, k);
      HighestIsSet(src);
      if k > HighestBit(src) {
        NoneAboveHighest(src, k);
      }
    }
  }

  // ---- widening and multiplication -----------------------------------------

  /** How many values the low part of an operand of this size has. */
  function Span(size: Byte): int {
    if size == 1 then 0x100 else if size == 2 then 0x1_0000 else 0x1_0000_0000
  }

  lemma SignExtend8(src: Word)
    ensures var r := SignExtend(src, 0x80); r % 0x100 == src % 0x100 && -0x80 <= Signed(r) < 0x80
  {
    var low := src % 0x100;
    if low >= 0x80 {
      NegativeWord(low - 0x100);
      WrapKeepsLow8(low);
      assert SignExtend(src, 0x80) == low - 0x100 + W64;
    } else {
      assert SignExtend(src, 0x80) == low;
    }
  }

  lemma SignExtend16(src: Word)
    ensures var r := SignExtend(src, 0x8000); r % 0x1_0000 == src % 0x1_0000 && -0x8000 <= Signed(r) < 0x8000
  {
    var low := src % 0x1_0000;
    if low >= 0x8000 {
      NegativeWord(low - 0x1_0000);
      WrapKeepsLow16(low);
      assert SignExtend(src, 0x8000) == low - 0x1_0000 + W64;
    } else {
      assert SignExtend(src, 0x8000) == low;
    }
  }

  lemma SignExtend32(src: Word)
    ensures var r := SignExtend(src, 0x8000_0000);
            r % 0x1_0000_0000 == src % 0x1_0000_0000 && -0x8000_0000 <= Signed(r) < 0x8000_0000
  {
    var low := src % 0x1_0000_0000;
    if low >= 0x8000_0000 {
      NegativeWord(low - 0x1_0000_0000);
      WrapKeepsLow32(low);
      assert SignExtend(src, 0x8000_0000) == low - 0x1_0000_0000 + W64;
    } else {
      assert SignExtend(src, 0x8000_0000) == low;
    }
  }

  lemma NegativeWord(x: int)
    requires -HALF64 <= x < 0
    ensures Low64(x) == x + W64 && Signed(Low64(x)) == x
  {
  }

  lemma WrapKeepsLow8(low: Byte)
    ensures (low - 0x100 + W64) % 0x100 == low
  {
  }

  lemma WrapKeepsLow16(low: Word16)
    ensures (low - 0x1_0000 + W64) % 0x1_0000 == low
  {
  }

  lemma WrapKeepsLow32(low: Word32)
    ensures (low - 0x1_0000_0000 + W64) % 0x1_0000_0000 == low
  {
  }

  /** MOVSX and MOVZX keep the low part and give the one value with that low part in the signed or unsigned range. */
  lemma ExtensionIsExact(src: Word, size: Byte, signed: bool)
    requires size == 1 || size == 2 || size == 4
    ensures var r := Extend(src, size, signed);
            && r % Span(size) == src % Span(size)
            && if signed then -Span(size) <= 2 * Signed(r) < Span(size) else r < Span(size)
  {
    if size == 1 {
      SignExtend8(src);
    } else if size == 2 {
      SignExtend16(src);
    } else {
      SignExtend32(src);
    }
  }

  /** The wide product is exact, and CF and OF are set together exactly when it needs its high half. */
  lemma MultiplyFlags(st: State, b: Word)
    ensures var m := Multiply(st, b);
            && (Bit(m.Flags(), 0) <==> m.Read(RDX) != 0) && (Bit(m.Flags(), 11) <==> m.Read(RDX) != 0)
  {
    var result := st.Read(RAX) * b;
    HighHalf(st.Read(RAX), b);
    PutFlagBits(st.Flags(), result >= W64);
  }

  lemma HighHalf(a: Word, b: Word)
    ensures 0 <= a * b / W64 < W64
    ensures a * b / W64 != 0 <==> a * b >= W64
  {
    WideArith.ProductFits(a, b);
    WideArith.HalvesOf(a * b);
  }

  lemma PutFlagBits(flags: Word, on: bool)
    ensures Bit(PutFlag(flags, CF + OF, on), 0) == on && Bit(PutFlag(flags, CF + OF, on), 11) == on
  {
    PutFlagBit(flags, on, 0);
    PutFlagBit(flags, on, 11);
  }

  lemma PutFlagBit(flags: Word, on: bool, k: nat)
    requires k == 0 || k == 11
    ensures Bit(PutFlag(flags, CF + OF, on), k) == on
  {
    var mask := CF + OF;
    assert Bit(mask, k) by {
      OneBit(11, k);
      assert Bit(0x801, 0) && Bit(0x801, 11);
    }
    LogicBits(flags, NotW(mask), k);
    NotBits(mask, k);
    LogicBits(AndW(flags, NotW(mask)), mask, k);
  }

  /** IMUL leaves the product modulo 2^64; it is the true signed product exactly when CF and OF are clear. */
  lemma SignedMultiplyExact(st: State, dst: Register, a: Word, b: Word)
    requires dst < 32
    ensures var d := SignedMultiply(st, dst, a, b);
            && (Signed(d.Read(dst)) == Signed(a) * Signed(b) <==> !Bit(d.Flags(), 0))
            && (Bit(d.Flags(), 11) <==> Bit(d.Flags(), 0))
            && (d.Read(dst) - Signed(a) * Signed(b)) % W64 == 0
  {
    var product := Signed(a) * Signed(b);
    PutFlagBits(st.Flags(), product != Signed(Low64(product)));
    assert (product % W64 - product) % W64 == 0 by { LowDiffers(product); }
  }

  lemma LowDiffers(x: int)
    ensures (x % W64 - x) % W64 == 0
  {
  }
}

/** What one step of the 8088 does, from the bytes at CS:IP, for every opcode the code gives a meaning. */
module X8088Opcodes {
  import opened Words
  import opened X8088

  /** An address in a memory of one megabyte that wraps around. */
  function Wrapped(a: nat): nat
    requires a < 0x20_0000
  {
    if a < 0x10_0000 then a else a - 0x10_0000
  }

  /** The byte `k` places after segment:offset. */
  function ByteAt(ram: Ram, seg: Word16, off: Word16, k: nat): Byte
    requires k < 8
  {
    var a: nat := 16 * seg + off + k;
    ram[Wrapped(a)]
  }

  /** The word there, low byte first. */
  function WordAt(ram: Ram, seg: Word16, off: Word16, k: nat): Word16
    requires k < 7
  {
    var high: int := ByteAt(ram, seg, off, k + 1);
    ByteAt(ram, seg, off, k) + 256 * high
  }

  /** Memory with a word stored at segment:offset, low byte first. */
  function WithWord(ram: Ram, seg: Word16, off: Word16, v: Word16): Ram {
    var a: nat := 16 * seg + off;
    ram[Wrapped(a) := v % 256][Wrapped(a + 1) := v / 256]
  }

  function Opcode(m: Machine): Byte { ByteAt(m.ram, m.cs, m.ip, 0) }

  /** A displacement byte as a signed number. */
  function SignedByte(b: Byte): int { if b < 128 then b else b - 256 }

  /** A 16-bit register moved by so much, modulo 64 KB. */
  function Plus(w: Word16, d: int): Word16 { (w + d) % 0x1_0000 }

  /** The machine goes on with these registers, instruction pointer and memory, and has spent four cycles
    * and one more for each byte of the instruction. */
  predicate Continues(m: Machine, length: nat, gp: Gp, ip: Word16, ram: Ram) {
    Step(m) == (m.(gp := gp, ip := ip, ram := ram, cycles := (m.cycles + length + 4) % 0x1_0000_0000_0000_0000),
                !m.dosBreak)
  }

  // ---- the bytes as the step reads them ------------------------------------

  lemma ReadsByte(ram: Ram, seg: Word16, off: Word16, k: nat)
    requires k < 8
    ensures Read8(ram, Linear(seg, off) + k) == ByteAt(ram, seg, off, k)
  {
  }

  lemma ReadsWord(ram: Ram, seg: Word16, off: Word16, k: nat)
    requires k < 7
    ensures Read16(ram, Linear(seg, off) + k) == WordAt(ram, seg, off, k)
  {
    ReadsByte(ram, seg, off, k);
    ReadsByte(ram, seg, off, k + 1);
  }

  lemma StoresWord(ram: Ram, seg: Word16, off: Word16, v: Word16)
    ensures Write16(ram, Linear(seg, off), v) == WithWord(ram, seg, off, v)
  {
  }

  lemma FetchedBytes(m: Machine)
    ensures Read8(m.ram, Linear(m.cs, m.ip)) == Opcode(m)
    ensures Read8(m.ram, Linear(m.cs, m.ip) + 1) == ByteAt(m.ram, m.cs, m.ip, 1)
    ensures Read16(m.ram, Linear(m.cs, m.ip) + 1) == WordAt(m.ram, m.cs, m.ip, 1)
  {
    ReadsByte(m.ram, m.cs, m.ip, 0);
    ReadsByte(m.ram, m.cs, m.ip, 1);
    ReadsWord(m.ram, m.cs, m.ip, 1);
  }

  lemma DisplacementOf(ip: Word16, b: Byte)
    ensures Add16(Add16(ip, 2), SignExtend8(b)) == (ip + 2 + SignedByte(b)) % 0x1_0000
  {
    assert Add16(ip, 2) == if ip + 2 < W16 then ip + 2 else ip + 2 - W16;
  }

  lemma NearTarget(ip: Word16, d: Word16)
    ensures Add16(Add16(ip, 3), d) == (ip + 3 + d) % 0x1_0000
  {
    assert Add16(ip, 3) == if ip + 3 < W16 then ip + 3 else ip + 3 - W16;
  }

  // ---- decoding ------------------------------------------------------------

  lemma StackDecodes(m: Machine, r: nat)
    requires r < 8
    ensures Opcode(m) == 0x50 + r ==> Decode(m.ram, m.cs, m.ip) == Inst(0x50 + r, 1, 0, 0, false, Push)
    ensures Opcode(m) == 0x58 + r ==> Decode(m.ram, m.cs, m.ip) == Inst(0x58 + r, 1, 0, 0, false, Pop)
  {
    FetchedBytes(m);
  }

  lemma CallDecodes(m: Machine)
    requires Opcode(m) == 0xE8
    ensures Decode(m.ram, m.cs, m.ip) == Inst(0xE8, 3, 0, WordAt(m.ram, m.cs, m.ip, 1), false, Call)
  {
    FetchedBytes(m);
  }

  lemma ReturnDecodes(m: Machine)
    requires Opcode(m) == 0xC3 || Opcode(m) == 0xC2
    ensures Decode(m.ram, m.cs, m.ip)
            == if Opcode(m) == 0xC3 then Inst(0xC3, 1, 0, 0, false, Ret)
               else Inst(0xC2, 3, WordAt(m.ram, m.cs, m.ip, 1), 0, false, Ret)
  {
    FetchedBytes(m);
  }

  lemma ShortDecodes(m: Machine)
    requires Opcode(m) == 0xEB || 0x70 <= Opcode(m) <= 0x7F
    ensures Decode(m.ram, m.cs, m.ip)
            == Inst(Opcode(m), 2, 0, SignExtend8(ByteAt(m.ram, m.cs, m.ip, 1)), false,
                    if Opcode(m) == 0xEB then Jmp else Jcc)
  {
    FetchedBytes(m);
  }

  lemma JumpDecodes(m: Machine)
    requires Opcode(m) == 0xE9 || Opcode(m) == 0xEA
    ensures var w := WordAt(m.ram, m.cs, m.ip, 1);
            Decode(m.ram, m.cs, m.ip)
            == if Opcode(m) == 0xE9 then Inst(0xE9, 3, 0, w, false, Jmp) else Inst(0xEA, 5, w, 0, true, Jmp)
  {
    FetchedBytes(m);
  }

  lemma MoveDecodes(m: Machine)
    requires 0xB0 <= Opcode(m) <= 0xBF
    ensures Decode(m.ram, m.cs, m.ip)
            == if Opcode(m) < 0xB8 then Inst(Opcode(m), 2, ByteAt(m.ram, m.cs, m.ip, 1), 0, false, Mov)
               else Inst(Opcode(m), 3, WordAt(m.ram, m.cs, m.ip, 1), 0, false, Mov)
  {
    FetchedBytes(m);
  }

  lemma SystemDecodes(m: Machine)
    ensures Opcode(m) == 0xF4 || Opcode(m) == 0xFA || Opcode(m) == 0xFB ==>
              Decode(m.ram, m.cs, m.ip) == Inst(Opcode(m), 1, 0, 0, false, System)
    ensures Opcode(m) == 0xCD ==>
              Decode(m.ram, m.cs, m.ip) == Inst(0xCD, 2, ByteAt(m.ram, m.cs, m.ip, 1), 0, false, System)
  {
    FetchedBytes(m);
  }

  /** Which bytes start which kind of instruction; every other byte is stepped over. */
  lemma CategoryIs(m: Machine)
    ensures var b, c := Opcode(m), Decode(m.ram, m.cs, m.ip).category;
            && (c.Push? <==> 0x50 <= b <= 0x57) && (c.Pop? <==> 0x58 <= b <= 0x5F)
            && (c.Call? <==> b == 0xE8) && (c.Ret? <==> b == 0xC3 || b == 0xC2)
            && (c.Jmp? <==> b == 0xEB || b == 0xE9 || b == 0xEA) && (c.Jcc? <==> 0x70 <= b <= 0x7F)
            && (c.Mov? <==> 0xB0 <= b <= 0xBF)
            && (c.System? <==> b == 0xF4 || b == 0xFA || b == 0xFB || b == 0xCD)
  {
    FetchedBytes(m);
  }

  // ---- executing what has been decoded -------------------------------------

  predicate Decoded(m: Machine, inst: Inst) { !m.halted && Decode(m.ram, m.cs, m.ip) == inst }

  lemma LowThreeBits(r: nat)
    requires r < 8
    ensures (0x50 + r) % 8 == r && (0x58 + r) % 8 == r && (0xB0 + r) % 8 == r && (0xB8 + r) % 8 == r
  {
  }

  lemma PushExecutes(m: Machine, r: nat)
    requires r < 8 && Decoded(m, Inst(0x50 + r, 1, 0, 0, false, Push))
    ensures var sp := Plus(m.gp[4], -2);
            Continues(m, 1, m.gp[4 := sp], Plus(m.ip, 1), Write16(m.ram, Linear(m.ss, sp), m.gp[r]))
  {
    LowThreeBits(r);
  }

  lemma PopExecutes(m: Machine, r: nat)
    requires r < 8 && Decoded(m, Inst(0x58 + r, 1, 0, 0, false, Pop))
    ensures Continues(m, 1, m.gp[4 := Plus(m.gp[4], 2)][r := Read16(m.ram, Linear(m.ss, m.gp[4]))],
                      Plus(m.ip, 1), m.ram)
  {
    LowThreeBits(r);
  }

  lemma CallExecutes(m: Machine, d: Word16)
    requires Decoded(m, Inst(0xE8, 3, 0, d, false, Call))
    ensures var sp := Plus(m.gp[4], -2);
            Continues(m, 3, m.gp[4 := sp], Plus(m.ip, 3 + d), Write16(m.ram, Linear(m.ss, sp), Plus(m.ip, 3)))
  {
    NearTarget(m.ip, d);
  }

  lemma RaisedTwice(sp: Word16, n: Word16)
    ensures Add16(Add16(sp, 2), n) == Plus(sp, 2 + n)
  {
    assert Add16(sp, 2) == if sp + 2 < W16 then sp + 2 else sp + 2 - W16;
  }

  lemma ReturnExecutes(m: Machine, b: Byte, length: nat, n: Word16)
    requires length <= 3 && Decoded(m, Inst(b, length, n, 0, false, Ret))
    ensures Continues(m, length, m.gp[4 := Plus(m.gp[4], 2 + n)], Read16(m.ram, Linear(m.ss, m.gp[4])), m.ram)
  {
    RaisedTwice(m.gp[4], n);
  }

  lemma ShortExecutes(m: Machine, b: Byte, d: Byte, c: Category)
    requires (c == Jmp || c == Jcc) && Decoded(m, Inst(b, 2, 0, SignExtend8(d), false, c))
    ensures Continues(m, 2, m.gp, Plus(m.ip, 2 + SignedByte(d)), m.ram)
  {
    DisplacementOf(m.ip, d);
  }

  lemma NearExecutes(m: Machine, d: Word16)
    requires Decoded(m, Inst(0xE9, 3, 0, d, false, Jmp))
    ensures Continues(m, 3, m.gp, Plus(m.ip, 3 + d), m.ram)
  {
    NearTarget(m.ip, d);
  }

  lemma FarExecutes(m: Machine, w: Word16)
    requires Decoded(m, Inst(0xEA, 5, w, 0, true, Jmp))
    ensures Step(m) == (m.(ip := w, cs := 0, cycles := (m.cycles + 9) % 0x1_0000_0000_0000_0000), !m.dosBreak)
  {
  }

  lemma MoveExecutes(m: Machine, b: Byte, length: nat, v: Word16, r: nat)
    requires length <= 3 && r < 8 && b % 8 == r && Decoded(m, Inst(b, length, v, 0, false, Mov))
    ensures Continues(m, length, m.gp[r := v], Plus(m.ip, length), m.ram)
  {
  }

  lemma FlagExecutes(m: Machine, b: Byte)
    requires Decoded(m, Inst(b, 1, 0, 0, false, System))
    ensures var next := m.(ip := Plus(m.ip, 1), cycles := (m.cycles + 5) % 0x1_0000_0000_0000_0000);
            && (b == 0xF4 ==> Step(m) == (next.(halted := true), false))
            && (b == 0xFA ==> Step(m) == (next.(interrupts := false), !m.dosBreak))
            && (b == 0xFB ==> Step(m) == (next.(interrupts := true), !m.dosBreak))
  {
  }

  lemma InterruptExecutes(m: Machine, n: Byte)
    requires Decoded(m, Inst(0xCD, 2, n, 0, false, System))
    ensures var next := m.(ip := Plus(m.ip, 2), cycles := (m.cycles + 6) % 0x1_0000_0000_0000_0000);
            Step(m) == (Service(next, n), !Service(next, n).dosBreak)
    ensures Hangs(m) <==> NeverReturns(m, n)
  {
  }

  // ---- one step, opcode by opcode ------------------------------------------

  /** 50+r: the register as it was goes to the stack, two bytes lower, low byte first. */
  lemma PushStep(m: Machine, r: nat)
    requires !m.halted && r < 8 && Opcode(m) == 0x50 + r
    ensures var sp := Plus(m.gp[4], -2);
            Continues(m, 1, m.gp[4 := sp], Plus(m.ip, 1), WithWord(m.ram, m.ss, sp, m.gp[r]))
  {
    StackDecodes(m, r);
    PushExecutes(m, r);
    StoresWord(m.ram, m.ss, Plus(m.gp[4], -2), m.gp[r]);
  }

  /** 58+r: the word at SS:SP goes to the register, after SP has been raised by two. */
  lemma PopStep(m: Machine, r: nat)
    requires !m.halted && r < 8 && Opcode(m) == 0x58 + r
    ensures Continues(m, 1, m.gp[4 := Plus(m.gp[4], 2)][r := WordAt(m.ram, m.ss, m.gp[4], 0)], Plus(m.ip, 1), m.ram)
  {
    StackDecodes(m, r);
    PopExecutes(m, r);
    ReadsWord(m.ram, m.ss, m.gp[4], 0);
  }

  /** E8: the address behind the three bytes of the call goes to the stack and the 16-bit displacement is
    * counted from there. */
  lemma CallStep(m: Machine)
    requires !m.halted && Opcode(m) == 0xE8
    ensures var sp := Plus(m.gp[4], -2);
            Continues(m, 3, m.gp[4 := sp], Plus(m.ip, 3 + WordAt(m.ram, m.cs, m.ip, 1)),
                      WithWord(m.ram, m.ss, sp, Plus(m.ip, 3)))
  {
    CallDecodes(m);
    CallExecutes(m, WordAt(m.ram, m.cs, m.ip, 1));
    StoresWord(m.ram, m.ss, Plus(m.gp[4], -2), Plus(m.ip, 3));
  }

  /** C3 and C2: the word at SS:SP becomes the instruction pointer and SP is raised by two, and by the
    * 16-bit operand of C2. */
  lemma ReturnStep(m: Machine)
    requires !m.halted && (Opcode(m) == 0xC3 || Opcode(m) == 0xC2)
    ensures var n: Word16 := if Opcode(m) == 0xC3 then 0 else WordAt(m.ram, m.cs, m.ip, 1);
            Continues(m, if Opcode(m) == 0xC3 then 1 else 3, m.gp[4 := Plus(m.gp[4], 2 + n)],
                      WordAt(m.ram, m.ss, m.gp[4], 0), m.ram)
  {
    ReturnDecodes(m);
    ReadsWord(m.ram, m.ss, m.gp[4], 0);
    if Opcode(m) == 0xC3 {
      ReturnExecutes(m, 0xC3, 1, 0);
    } else {
      ReturnExecutes(m, 0xC2, 3, WordAt(m.ram, m.cs, m.ip, 1));
    }
  }

  /** EB and 70 to 7F: a signed byte counted from behind the two bytes, whatever the condition. */
  lemma ShortJumpStep(m: Machine)
    requires !m.halted && (Opcode(m) == 0xEB || 0x70 <= Opcode(m) <= 0x7F)
    ensures Continues(m, 2, m.gp, Plus(m.ip, 2 + SignedByte(ByteAt(m.ram, m.cs, m.ip, 1))), m.ram)
  {
    ShortDecodes(m);
    ShortExecutes(m, Opcode(m), ByteAt(m.ram, m.cs, m.ip, 1), if Opcode(m) == 0xEB then Jmp else Jcc);
  }

  /** E9: a 16-bit displacement counted from behind the three bytes. */
  lemma NearJumpStep(m: Machine)
    requires !m.halted && Opcode(m) == 0xE9
    ensures Continues(m, 3, m.gp, Plus(m.ip, 3 + WordAt(m.ram, m.cs, m.ip, 1)), m.ram)
  {
    JumpDecodes(m);
    NearExecutes(m, WordAt(m.ram, m.cs, m.ip, 1));
  }

  /** EA: the 16-bit operand is the new instruction pointer and CS becomes zero, whatever the segment
    * operand says. */
  lemma FarJumpStep(m: Machine)
    requires !m.halted && Opcode(m) == 0xEA
    ensures Step(m) == (m.(ip := WordAt(m.ram, m.cs, m.ip, 1), cs := 0,
                           cycles := (m.cycles + 9) % 0x1_0000_0000_0000_0000), !m.dosBreak)
  {
    JumpDecodes(m);
    FarExecutes(m, WordAt(m.ram, m.cs, m.ip, 1));
  }

  /** B0+r: the byte goes to the whole register of that number. */
  lemma ByteMoveStep(m: Machine, r: nat)
    requires !m.halted && r < 8 && Opcode(m) == 0xB0 + r
    ensures Continues(m, 2, m.gp[r := ByteAt(m.ram, m.cs, m.ip, 1)], Plus(m.ip, 2), m.ram)
  {
    MoveDecodes(m);
    LowThreeBits(r);
    MoveExecutes(m, Opcode(m), 2, ByteAt(m.ram, m.cs, m.ip, 1), r);
  }

  /** B8+r: the word goes to the register. */
  lemma WordMoveStep(m: Machine, r: nat)
    requires !m.halted && r < 8 && Opcode(m) == 0xB8 + r
    ensures Continues(m, 3, m.gp[r := WordAt(m.ram, m.cs, m.ip, 1)], Plus(m.ip, 3), m.ram)
  {
    MoveDecodes(m);
    LowThreeBits(r);
    MoveExecutes(m, Opcode(m), 3, WordAt(m.ram, m.cs, m.ip, 1), r);
  }

  /** F4, FA and FB: halt, and the interrupt flag. */
  lemma FlagStep(m: Machine)
    requires !m.halted && (Opcode(m) == 0xF4 || Opcode(m) == 0xFA || Opcode(m) == 0xFB)
    ensures var next := m.(ip := Plus(m.ip, 1), cycles := (m.cycles + 5) % 0x1_0000_0000_0000_0000);
            && (Opcode(m) == 0xF4 ==> Step(m) == (next.(halted := true), false))
            && (Opcode(m) == 0xFA ==> Step(m) == (next.(interrupts := false), !m.dosBreak))
            && (Opcode(m) == 0xFB ==> Step(m) == (next.(interrupts := true), !m.dosBreak))
  {
    SystemDecodes(m);
    FlagExecutes(m, Opcode(m));
  }

  /** CD: interrupt 16h clears AX; 20h, and 21h with 4Ch in the high half of AX, end the program; every
    * other service that comes back leaves the machine alone. */
  lemma InterruptStep(m: Machine)
    requires !m.halted && Opcode(m) == 0xCD
    ensures var n, ah := ByteAt(m.ram, m.cs, m.ip, 1), m.gp[0] / 0x100;
            var next := m.(ip := Plus(m.ip, 2), cycles := (m.cycles + 6) % 0x1_0000_0000_0000_0000);
            && (n == 0x16 ==> Step(m) == (next.(gp := m.gp[0 := 0]), !m.dosBreak))
            && (n == 0x20 || (n == 0x21 && ah == 0x4C) ==> Step(m) == (next.(dosBreak := true), false))
            && (n != 0x16 && n != 0x20 && !(n == 0x21 && ah == 0x4C) ==> Step(m) == (next, !m.dosBreak))
  {
    SystemDecodes(m);
    InterruptExecutes(m, ByteAt(m.ram, m.cs, m.ip, 1));
  }

  /** The step that never comes back: 21h with 09h in the high half of AX, and no dollar sign in memory. */
  lemma HangingStep(m: Machine)
    requires !m.halted && Opcode(m) == 0xCD
    ensures Hangs(m) <==> ByteAt(m.ram, m.cs, m.ip, 1) == 0x21 && m.gp[0] / 0x100 == 0x09
                          && forall a :: 0 <= a < 0x10_0000 ==> m.ram[a] != 0x24
  {
    SystemDecodes(m);
    InterruptExecutes(m, ByteAt(m.ram, m.cs, m.ip, 1));
  }

  /** A halted machine stays as it is. */
  lemma HaltedStep(m: Machine)
    requires m.halted
    ensures Step(m) == (m, false)
  {
  }
}

/** The 8088 layer: decoder, memory reads and one instruction step, as functions. */
module X8088 {
  import opened Words

  const MEMORY_SIZE := 0x10_0000

  type Ram = r: seq<Byte> | |r| == 0x10_0000 witness seq(0x10_0000, _ => 0)

  /** General registers in encoding order: AX CX DX BX SP BP SI DI. */
  type Gp = g: seq<Word16> | |g| == 8 witness seq(8, _ => 0)

  const SP := 4

  datatype Machine = Machine(
    gp: Gp, cs: Word16, ss: Word16, ip: Word16, ram: Ram,
    halted: bool, interrupts: bool, dosBreak: bool, cycles: Word)

  datatype Category = Mov | Jmp | Jcc | Call | Ret | Push | Pop | System | Other

  datatype Inst = Inst(
    opcode: Byte, length: nat, immediate: Word16, displacement: Word16, isFar: bool, category: Category)

  function Add16(a: int, b: int): Word16 { (a + b) % W16 }

  // ---- memory --------------------------------------------------------------

  /** Segment and offset as a physical address, not yet cut to 20 bits. */
  function Linear(seg: Word16, off: Word16): (a: nat)
    ensures a < 0x11_0000
  {
    var base: int := seg;
    base * 16 + off
  }

  /** `addr & 0xF_FFFF`: sums of a segment and an offset stay below two megabytes. */
  function Mask20(addr: nat): (a: nat)
    requires addr < 2 * MEMORY_SIZE
    ensures a < MEMORY_SIZE
  {
    if addr < MEMORY_SIZE then addr else addr - MEMORY_SIZE
  }

  function Read8(ram: Ram, addr: nat): Byte
    requires addr < 2 * MEMORY_SIZE
  {
    ram[Mask20(addr)]
  }

  function Read16(ram: Ram, addr: nat): Word16
    requires addr + 1 < 2 * MEMORY_SIZE
  {
    var hi: int := Read8(ram, addr + 1);
    Read8(ram, addr) + 256 * hi
  }

  function Write8(ram: Ram, addr: nat, v: Byte): Ram
    requires addr < 2 * MEMORY_SIZE
  {
    ram[Mask20(addr) := v]
  }

  function Write16(ram: Ram, addr: nat, v: Word16): Ram
    requires addr + 1 < 2 * MEMORY_SIZE
  {
    Write8(Write8(ram, addr, v % 256), addr + 1, v / 256)
  }

  // ---- decoding ------------------------------------------------------------

  /** An 8-bit displacement sign-extended to 16 bits. */
  function SignExtend8(b: Byte): Word16 { if b < 0x80 then b else b + 0xFF00 }

  function Decode(ram: Ram, cs: Word16, ip: Word16): Inst {
    var phys := Linear(cs, ip);
    var b0 := Read8(ram, phys);
    var byte, word := Read8(ram, phys + 1), Read16(ram, phys + 1);
    if b0 == 0xF4 || b0 == 0xFA || b0 == 0xFB then Inst(b0, 1, 0, 0, false, System)
    else if 0x70 <= b0 <= 0x7F then Inst(b0, 2, 0, SignExtend8(byte), false, Jcc)
    else if b0 == 0xEB then Inst(b0, 2, 0, SignExtend8(byte), false, Jmp)
    else if b0 == 0xE9 then Inst(b0, 3, 0, word, false, Jmp)
    else if b0 == 0xEA then Inst(b0, 5, word, 0, true, Jmp)
    else if b0 == 0xE8 then Inst(b0, 3, 0, word, false, Call)
    else if b0 == 0xC3 then Inst(b0, 1, 0, 0, false, Ret)
    else if b0 == 0xC2 then Inst(b0, 3, word, 0, false, Ret)
    else if b0 == 0xCD then Inst(b0, 2, byte, 0, false, System)
    else if 0x50 <= b0 <= 0x57 then Inst(b0, 1, 0, 0, false, Push)
    else if 0x58 <= b0 <= 0x5F then Inst(b0, 1, 0, 0, false, Pop)
    else if 0xB0 <= b0 <= 0xB7 then Inst(b0, 2, byte, 0, false, Mov)
    else if 0xB8 <= b0 <= 0xBF then Inst(b0, 3, word, 0, false, Mov)
    else Inst(b0, 1, 0, 0, false, Other)
  }

  function IpAfter(inst: Inst, ip: Word16): Word16 { Add16(ip, inst.length) }

  function BranchTarget(inst: Inst, ip: Word16): Word16 { Add16(IpAfter(inst, ip), inst.displacement) }

  // ---- one step ------------------------------------------------------------

  function StackTop(m: Machine): nat { Linear(m.ss, m.gp[SP]) }

  function SetGp(m: Machine, r: nat, v: Word16): Machine
    requires r < 8
  {
    m.(gp := m.gp[r := v])
  }

  function PushWord(m: Machine, v: Word16): Machine {
    var lowered := SetGp(m, SP, Add16(m.gp[SP], -2));
    lowered.(ram := Write16(m.ram, StackTop(lowered), v))
  }

  /** The DOS string service prints from DS:DX on, wrapping at one megabyte, until it meets this byte. */
  const DOLLAR := 0x24

  /** The service call that never comes back: string output with no terminator anywhere in memory. */
  predicate NeverReturns(m: Machine, number: Byte) {
    number == 0x21 && m.gp[0] / 256 == 0x09 && DOLLAR !in m.ram
  }

  /** BIOS and DOS services that come back, as far as they touch the machine. */
  function Service(m: Machine, number: Byte): Machine {
    if number == 0x16 then SetGp(m, 0, 0)
    else if number == 0x20 || (number == 0x21 && m.gp[0] / 256 == 0x4C) then m.(dosBreak := true)
    else m
  }

  function SystemEffect(m: Machine, inst: Inst): Machine {
    if inst.opcode == 0xF4 then m.(halted := true)
    else if inst.opcode == 0xFA then m.(interrupts := false)
    else if inst.opcode == 0xFB then m.(interrupts := true)
    else if inst.opcode == 0xCD then Service(m, inst.immediate % 256)
    else m
  }

  /** What the instruction found at `at` does, after IP has moved past it. */
  function Effect(m: Machine, inst: Inst, at: Word16): Machine {
    var r := inst.opcode % 8;
    match inst.category
    case System => SystemEffect(m, inst)
    case Jmp => if inst.isFar then m.(ip := inst.immediate, cs := 0) else m.(ip := BranchTarget(inst, at))
    case Jcc => m.(ip := BranchTarget(inst, at))
    case Call => PushWord(m, IpAfter(inst, at)).(ip := BranchTarget(inst, at))
    case Ret => SetGp(m.(ip := Read16(m.ram, StackTop(m))), SP, Add16(Add16(m.gp[SP], 2), inst.immediate))
    case Push => PushWord(m, m.gp[r])
    case Pop => SetGp(SetGp(m, SP, Add16(m.gp[SP], 2)), r, Read16(m.ram, StackTop(m)))
    case Mov => SetGp(m, r, inst.immediate)
    case Other => m
  }

  function Advance(m: Machine, inst: Inst): Machine {
    m.(ip := IpAfter(inst, m.ip), cycles := AddW(m.cycles, (inst.length + 4) % W64))
  }

  function Execute(m: Machine, inst: Inst): Machine { Effect(Advance(m, inst), inst, m.ip) }

  /** The step is the service call that never comes back. */
  predicate Hangs(m: Machine) {
    var inst := Decode(m.ram, m.cs, m.ip);
    !m.halted && inst.category.System? && inst.opcode == 0xCD && NeverReturns(m, inst.immediate % 256)
  }

  /** The machine after one step that comes back, and whether execution should continue. */
  function Step(m: Machine): (Machine, bool) {
    if m.halted then (m, false)
    else
      var inst := Decode(m.ram, m.cs, m.ip);
      var next := Execute(m, inst);
      (next, !next.dosBreak && !(inst.category.System? && inst.opcode == 0xF4))
  }

  // ---- where the step departs from the processor ---------------------------

  /** The opcodes the decoder gives a meaning of their own. */
  predicate Named(b: Byte) {
    || b == 0xF4 || b == 0xFA || b == 0xFB || b == 0xEB || b == 0xE9 || b == 0xEA || b == 0xE8
    || b == 0xC3 || b == 0xC2 || b == 0xCD || 0x50 <= b <= 0x5F || 0x70 <= b <= 0x7F || 0xB0 <= b <= 0xBF
  }

  /** Every other byte is stepped over: one byte, five cycles, and nothing else changes. */
  lemma UnnamedIsSkipped(m: Machine)
    ensures var b := Read8(m.ram, Linear(m.cs, m.ip));
            && (Decode(m.ram, m.cs, m.ip).category.Other? <==> !Named(b))
            && (!m.halted && !Named(b) ==>
                  Step(m) == (m.(ip := Add16(m.ip, 1), cycles := AddW(m.cycles, 5)), !m.dosBreak))
  {
  }

  /** What MOV of a byte does on the processor: AL, CL, DL, BL and then the high halves AH, CH, DH, BH. */
  function ByteMove(m: Machine, r: nat, v: Byte): Machine
    requires r < 8
  {
    if r < 4 then SetGp(m, r, m.gp[r] / 256 * 256 + v)
    else
      var high: int := v;
      SetGp(m, r - 4, 256 * high + m.gp[r - 4] % 256)
  }

  /** The code writes the whole register of that number instead, which is the same exactly if a low half
    * lies under a zero high half, or a high half and the register written both hold the byte already. */
  lemma ByteMoveExact(m: Machine, inst: Inst, at: Word16)
    requires 0xB0 <= inst.opcode <= 0xB7 && inst.category.Mov? && inst.immediate < 256
    ensures var r, v := inst.opcode % 8, inst.immediate;
            Effect(m, inst, at) == ByteMove(m, r, v)
            <==> if r < 4 then m.gp[r] < 256 else m.gp[r] == v && m.gp[r - 4] / 256 == v
  {
    var r, v := inst.opcode % 8, inst.immediate;
    var written, meant := Effect(m, inst, at), ByteMove(m, r, v);
    if r < 4 {
      assert written.gp[r] == v && meant.gp[r] == m.gp[r] / 256 * 256 + v;
    } else {
      HighHalf(m.gp[r - 4], v);
      assert written.gp[r] == v && meant.gp[r] == m.gp[r];
      assert written.gp[r - 4] == m.gp[r - 4];
      if m.gp[r] == v && m.gp[r - 4] / 256 == v {
        assert written.gp == m.gp && meant.gp == m.gp;
      }
    }
  }

  lemma HighHalf(w: Word16, v: int)
    ensures w == 256 * v + w % 256 <==> w / 256 == v
  {
  }
}

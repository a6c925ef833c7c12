/** The 8088 executor as it is stored: CPU fields and a RAM array, updated in place by `Step`. */
module X8088Store {
  import opened Words
  import opened X8088

  class X8088Executor {
    var ax: Word16
    var cx: Word16
    var dx: Word16
    var bx: Word16
    var sp: Word16
    var bp: Word16
    var si: Word16
    var di: Word16
    var cs: Word16
    var ds: Word16
    var ss: Word16
    var ip: Word16
    var halted: bool
    var interruptsEnabled: bool
    var dosBreak: bool
    var cycles: Word
    const ram: array<Byte>

    ghost predicate Valid() { ram.Length == MEMORY_SIZE }

    function Gp(): Gp
      reads this
    {
      var g: seq<Word16> := [ax, cx, dx, bx, sp, bp, si, di];
      g
    }

    ghost function State(): Machine
      requires Valid()
      reads this, ram
    {
      Machine(Gp(), cs, ss, ip, ram[..], halted, interruptsEnabled, dosBreak, cycles)
    }

    constructor ()
      ensures Valid() && fresh(ram)
      ensures State() == Machine([0, 0, 0, 0, 0xFFFE, 0, 0, 0], 0xF000, 0, 0xFFF0, seq(MEMORY_SIZE, _ => 0),
                                 false, false, false, 0)
    {
      ax, bx, cx, dx, si, di, sp, bp := 0, 0, 0, 0, 0, 0, 0xFFFE, 0;
      cs, ds, ss, ip := 0xF000, 0, 0, 0xFFF0;
      halted, interruptsEnabled, dosBreak, cycles := false, false, false, 0;
      ram := new Byte[MEMORY_SIZE](_ => 0);
      new;
      assert ram[..] == seq(MEMORY_SIZE, _ => 0);
    }

    function ReadGp16(idx: nat): (v: Word16)
      reads this
      ensures v == Gp()[idx % 8]
    {
      match idx % 8
      case 0 => ax
      case 1 => cx
      case 2 => dx
      case 3 => bx
      case 4 => sp
      case 5 => bp
      case 6 => si
      case _ => di
    }

    method WriteGp16(idx: nat, val: Word16)
      modifies this`ax, this`cx, this`dx, this`bx, this`sp, this`bp, this`si, this`di
      ensures Gp() == old(Gp())[idx % 8 := val]
    {
      match idx % 8 {
        case 0 => ax := val;
        case 1 => cx := val;
        case 2 => dx := val;
        case 3 => bx := val;
        case 4 => sp := val;
        case 5 => bp := val;
        case 6 => si := val;
        case _ => di := val;
      }
    }

    method WriteByte(addr: nat, v: Byte)
      requires Valid() && addr < 2 * MEMORY_SIZE
      modifies ram
      ensures ram[..] == Write8(old(ram[..]), addr, v)
    {
      ram[Mask20(addr)] := v;
    }

    method WriteWord(addr: nat, v: Word16)
      requires Valid() && addr + 1 < 2 * MEMORY_SIZE
      modifies ram
      ensures ram[..] == Write16(old(ram[..]), addr, v)
    {
      WriteByte(addr, v % 256);
      WriteByte(addr + 1, v / 256);
    }

    /** Lowers SP and stores the word there. */
    method PushValue(v: Word16)
      requires Valid()
      modifies this`sp, ram
      ensures State() == PushWord(old(State()), v)
    {
      sp := Add16(sp, -2);
      WriteWord(Linear(ss, sp), v);
    }

    /** Looks for the terminator from an address on, all the way round; with none, the source reads on for ever. */
    method FindTerminator(start: nat) returns (found: bool)
      requires Valid() && start < 2 * MEMORY_SIZE
      ensures found == (DOLLAR in ram[..])
    {
      var first := Mask20(start);
      var addr := first;
      for i := 0 to MEMORY_SIZE
        invariant addr == Around(first, i)
        invariant forall k :: 0 <= k < i ==> ram[Around(first, k)] != DOLLAR
      {
        if ram[addr] == DOLLAR {
          return true;
        }
        addr := if addr + 1 == MEMORY_SIZE then 0 else addr + 1;
      }
      forall a | 0 <= a < MEMORY_SIZE ensures ram[a] != DOLLAR {
        assert a == Around(first, if a >= first then a - first else a + MEMORY_SIZE - first);
      }
      found := false;
    }

    /** Whether the service comes back, and what it does if so. */
    method HandleInt(number: Byte) returns (returned: bool)
      requires Valid()
      modifies this
      ensures returned == !NeverReturns(old(State()), number)
      ensures State() == if returned then Service(old(State()), number) else old(State())
    {
      returned := true;
      if number == 0x16 {
        ax := 0;
      } else if number == 0x20 {
        dosBreak := true;
      } else if number == 0x21 {
        if ax / 256 == 0x09 {
          returned := FindTerminator(Linear(ds, dx));
        } else if ax / 256 == 0x4C {
          dosBreak := true;
        }
      }
    }

    method SystemCall(inst: Inst) returns (returned: bool)
      requires Valid()
      modifies this
      ensures returned == !(inst.opcode == 0xCD && NeverReturns(old(State()), inst.immediate % 256))
      ensures State() == if returned then SystemEffect(old(State()), inst) else old(State())
    {
      returned := true;
      if inst.opcode == 0xF4 {
        halted := true;
      } else if inst.opcode == 0xFA {
        interruptsEnabled := false;
      } else if inst.opcode == 0xFB {
        interruptsEnabled := true;
      } else if inst.opcode == 0xCD {
        returned := HandleInt(inst.immediate % 256);
      }
    }

    method Return(inst: Inst)
      requires Valid() && inst.category.Ret?
      modifies this
      ensures State() == Effect(old(State()), inst, 0)
    {
      ip := Read16(ram[..], Linear(ss, sp));
      sp := Add16(sp, 2);
      if inst.immediate > 0 {
        sp := Add16(sp, inst.immediate);
      }
    }

    method PopInto(opcode: Byte)
      requires Valid()
      modifies this
      ensures var m := old(State());
              State() == SetGp(SetGp(m, SP, Add16(m.gp[SP], 2)), opcode % 8, Read16(m.ram, StackTop(m)))
    {
      var v := Read16(ram[..], Linear(ss, sp));
      sp := Add16(sp, 2);
      WriteGp16(opcode, v);
    }

    method Dispatch(inst: Inst, at: Word16) returns (returned: bool)
      requires Valid()
      modifies this, ram
      ensures returned
              == !(inst.category.System? && inst.opcode == 0xCD && NeverReturns(old(State()), inst.immediate % 256))
      ensures State() == if returned then Effect(old(State()), inst, at) else old(State())
    {
      returned := true;
      match inst.category {
        case System => returned := SystemCall(inst);
        case Jmp =>
          ip := if inst.isFar then inst.immediate else BranchTarget(inst, at);
          cs := if inst.isFar then 0 else cs;
        case Jcc => ip := BranchTarget(inst, at);
        case Call =>
          PushValue(IpAfter(inst, at));
          ip := BranchTarget(inst, at);
        case Ret => Return(inst);
        case Push => PushValue(ReadGp16(inst.opcode));
        case Pop => PopInto(inst.opcode);
        case Mov => WriteGp16(inst.opcode, inst.immediate);
        case Other =>
      }
    }

    /** One instruction: whether execution should continue, or None if the source's step never comes back. */
    method StepOnce() returns (continues: Option<bool>)
      requires Valid()
      modifies this, ram
      ensures continues.None? <==> Hangs(old(State()))
      ensures continues.Some? ==> (State(), continues.value) == Step(old(State()))
      ensures continues.None? ==> State() == Advance(old(State()), Decode(old(ram[..]), old(cs), old(ip)))
    {
      if halted {
        return Some(false);
      }
      var at := ip;
      var inst := Decode(ram[..], cs, ip);
      ip := IpAfter(inst, ip);
      cycles := AddW(cycles, (inst.length + 4) % W64);
      var returned := Dispatch(inst, at);
      continues := if returned then Some(!dosBreak && !(inst.category.System? && inst.opcode == 0xF4)) else None;
    }
  }

  /** The address `k` bytes on from `first`, wrapping at one megabyte. */
  function Around(first: nat, k: nat): nat
    requires first < MEMORY_SIZE && k <= MEMORY_SIZE
  {
    if first + k < MEMORY_SIZE then first + k else first + k - MEMORY_SIZE
  }
}

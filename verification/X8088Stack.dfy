/**
 * The 8088 stack in segmented memory behaves as a list: for every SS and every SP, even or odd, across
 * the 16-bit wrap of SP and the 20-bit wrap of addresses, for up to 32768 words.
 */
module X8088Stack {
  import opened Words
  import opened X8088

  const MAX_WORDS := 32768

  /** Where the run starts: its code memory, segments, stack base and depth limit. */
  datatype Frame = Frame(code: Ram, cs: Word16, ss: Word16, base: Word16, limit: nat)

  predicate FrameOk(f: Frame) { f.limit <= MAX_WORDS }

  /** Offset of the k-th word pushed, counting from 1; offset 0 is the base itself. */
  function Off(f: Frame, k: nat): Word16
    requires k <= MAX_WORDS
  {
    if f.base >= 2 * k then f.base - 2 * k else f.base - 2 * k + W16
  }

  /** The two bytes of the k-th word. */
  function LowByte(f: Frame, k: nat): nat
    requires k <= MAX_WORDS
  {
    Mask20(Linear(f.ss, Off(f, k)))
  }

  function HighByte(f: Frame, k: nat): nat
    requires k <= MAX_WORDS
  {
    Mask20(Linear(f.ss, Off(f, k)) + 1)
  }

  /** The address lies in the memory the stack may use. */
  ghost predicate InStack(f: Frame, addr: nat)
    requires FrameOk(f)
  {
    exists k :: 1 <= k <= f.limit && (addr == LowByte(f, k) || addr == HighByte(f, k))
  }

  // ---- the list machine ----------------------------------------------------

  /** Registers other than SP, the instruction pointer and the stack, bottom first. */
  datatype List = List(gp: Gp, ip: Word16, stack: seq<Word16>)

  function SpOf(f: Frame, depth: nat): Word16
    requires depth <= MAX_WORDS
  {
    Off(f, depth)
  }

  /** No byte of the instruction at `ip` can be overwritten by the stack. */
  ghost predicate CodeSafe(f: Frame, ip: Word16)
    requires FrameOk(f)
  {
    var phys := Linear(f.cs, ip);
    !InStack(f, Mask20(phys)) && !InStack(f, Mask20(phys + 1)) && !InStack(f, Mask20(phys + 2))
  }

  function RegValue(f: Frame, a: List, r: nat): Word16
    requires r < 8 && |a.stack| <= MAX_WORDS
  {
    if r == SP then SpOf(f, |a.stack|) else a.gp[r]
  }

  /** The instruction only uses the stack as a stack, within the depth limit. */
  predicate Allowed(f: Frame, a: List, inst: Inst) {
    match inst.category
    case Push => |a.stack| < f.limit
    case Call => |a.stack| < f.limit
    case Pop => a.stack != [] && inst.opcode % 8 != SP
    case Ret => a.stack != [] && inst.immediate == 0
    case Mov => inst.opcode % 8 != SP
    case Jmp => !inst.isFar
    case System => false
    case Jcc => true
    case Other => true
  }

  function ListExecute(f: Frame, a: List, inst: Inst): List
    requires |a.stack| <= f.limit <= MAX_WORDS && Allowed(f, a, inst)
  {
    var next := IpAfter(inst, a.ip);
    var r := inst.opcode % 8;
    match inst.category
    case Push => List(a.gp, next, a.stack + [RegValue(f, a, r)])
    case Call => List(a.gp, BranchTarget(inst, a.ip), a.stack + [next])
    case Pop => List(a.gp[r := a.stack[|a.stack| - 1]], next, a.stack[..|a.stack| - 1])
    case Ret => List(a.gp, a.stack[|a.stack| - 1], a.stack[..|a.stack| - 1])
    case Mov => List(a.gp[r := inst.immediate], next, a.stack)
    case Jmp => List(a.gp, BranchTarget(inst, a.ip), a.stack)
    case Jcc => List(a.gp, BranchTarget(inst, a.ip), a.stack)
    case _ => List(a.gp, next, a.stack)
  }

  /** The instruction the run's code has at this address. */
  function InstAt(f: Frame, ip: Word16): Inst { Decode(f.code, f.cs, ip) }

  /** A push, pop, call, near return or an instruction that leaves stack and segments alone. */
  ghost predicate Listed(f: Frame, a: List)
    requires FrameOk(f)
  {
    CodeSafe(f, a.ip) && |a.stack| <= f.limit && Allowed(f, a, InstAt(f, a.ip))
  }

  /** One step of the list machine. */
  ghost function ListStep(f: Frame, a: List): List
    requires FrameOk(f) && Listed(f, a)
  {
    ListExecute(f, a, InstAt(f, a.ip))
  }

  // ---- refinement ----------------------------------------------------------

  /** The machine represents the list: SP is the base less two bytes a word, the words lie in memory
    * below the base, and memory outside the stack is still the code the run started with. */
  ghost predicate Represents(f: Frame, m: Machine, a: List) {
    && FrameOk(f) && |a.stack| <= f.limit
    && m.cs == f.cs && m.ss == f.ss && m.ip == a.ip && !m.halted && !m.dosBreak
    && m.gp[SP] == SpOf(f, |a.stack|)
    && (forall r :: 0 <= r < 8 && r != SP ==> m.gp[r] == a.gp[r])
    && (forall k :: 1 <= k <= |a.stack| ==> WordAt(f, m.ram, k) == a.stack[k - 1])
    && (forall addr :: 0 <= addr < MEMORY_SIZE && !InStack(f, addr) ==> m.ram[addr] == f.code[addr])
  }

  function WordAt(f: Frame, ram: Ram, k: nat): Word16
    requires k <= MAX_WORDS
  {
    Read16(ram, Linear(f.ss, Off(f, k)))
  }

  lemma OffsetsApart(f: Frame, j: nat, k: nat)
    requires 1 <= j < k <= MAX_WORDS
    ensures Off(f, j) >= Off(f, k) + 2 || Off(f, k) >= Off(f, j) + 2
  {
  }

  /** Two bytes less than a megabyte apart are different after masking. */
  lemma MaskApart(a: nat, b: nat)
    requires a < b < a + MEMORY_SIZE && b < 2 * MEMORY_SIZE
    ensures Mask20(a) != Mask20(b)
  {
  }

  lemma WordsApart(f: Frame, j: nat, k: nat)
    requires j <= MAX_WORDS && k <= MAX_WORDS && Off(f, j) + 2 <= Off(f, k)
    ensures LowByte(f, j) != LowByte(f, k)
    ensures LowByte(f, j) != HighByte(f, k)
    ensures HighByte(f, j) != LowByte(f, k)
    ensures HighByte(f, j) != HighByte(f, k)
  {
    var x, y := Linear(f.ss, Off(f, j)), Linear(f.ss, Off(f, k));
    MaskApart(x, y);
    MaskApart(x, y + 1);
    MaskApart(x + 1, y);
    MaskApart(x + 1, y + 1);
  }

  /** Different words never share a byte. */
  lemma WordsDisjoint(f: Frame, j: nat, k: nat)
    requires 1 <= j <= MAX_WORDS && 1 <= k <= MAX_WORDS && j != k
    ensures LowByte(f, j) != LowByte(f, k) && LowByte(f, j) != HighByte(f, k)
    ensures HighByte(f, j) != LowByte(f, k) && HighByte(f, j) != HighByte(f, k)
  {
    OffsetsApart(f, if j < k then j else k, if j < k then k else j);
    if Off(f, j) + 2 <= Off(f, k) {
      WordsApart(f, j, k);
    } else {
      WordsApart(f, k, j);
    }
  }

  lemma BytesApart(f: Frame, k: nat)
    requires k <= MAX_WORDS
    ensures LowByte(f, k) != HighByte(f, k)
  {
    MaskApart(Linear(f.ss, Off(f, k)), Linear(f.ss, Off(f, k)) + 1);
  }

  /** Writing word k: it reads back, every other word and everything outside the stack is unchanged. */
  lemma WriteWord(f: Frame, ram: Ram, k: nat, v: Word16)
    requires FrameOk(f) && 1 <= k <= f.limit
    ensures var after := Write16(ram, Linear(f.ss, Off(f, k)), v);
            && WordAt(f, after, k) == v
            && (forall j :: 1 <= j <= f.limit && j != k ==> WordAt(f, after, j) == WordAt(f, ram, j))
            && (forall addr :: 0 <= addr < MEMORY_SIZE && !InStack(f, addr) ==> after[addr] == ram[addr])
  {
    BytesApart(f, k);
    forall j | 1 <= j <= f.limit && j != k
      ensures WordAt(f, Write16(ram, Linear(f.ss, Off(f, k)), v), j) == WordAt(f, ram, j)
    {
      WordsDisjoint(f, j, k);
    }
    assert InStack(f, LowByte(f, k)) && InStack(f, HighByte(f, k));
  }

  /** Code bytes are intact, so the machine decodes what the run started with. */
  lemma SameDecode(f: Frame, m: Machine, a: List)
    requires Represents(f, m, a) && CodeSafe(f, a.ip)
    ensures Decode(m.ram, m.cs, m.ip) == InstAt(f, a.ip)
  {
    var phys := Linear(f.cs, a.ip);
    assert Read8(m.ram, phys) == Read8(f.code, phys);
    assert Read8(m.ram, phys + 1) == Read8(f.code, phys + 1);
    assert Read8(m.ram, phys + 1 + 1) == Read8(f.code, phys + 2);
    assert Read16(m.ram, phys + 1) == Read16(f.code, phys + 1);
  }

  lemma OffStep(f: Frame, k: nat)
    requires k < MAX_WORDS
    ensures Add16(Off(f, k), -2) == Off(f, k + 1) && Add16(Off(f, k + 1), 2) == Off(f, k)
  {
  }

  /** Any running machine represents the empty list, with its own SP as the base. */
  lemma StartRepresents(m: Machine, limit: nat)
    requires !m.halted && !m.dosBreak && limit <= MAX_WORDS
    ensures Represents(Frame(m.ram, m.cs, m.ss, m.gp[SP], limit), m, List(m.gp, m.ip, []))
  {
  }

  /** One word more than the limit would land on the first one. */
  lemma LimitIsTight(f: Frame)
    ensures Add16(Off(f, MAX_WORDS), -2) == Off(f, 1)
  {
  }

  /** A push, of any value, appends to the list. */
  lemma PushRepresents(f: Frame, m: Machine, a: List, v: Word16)
    requires Represents(f, m, a) && |a.stack| < f.limit
    ensures Represents(f, PushWord(m, v), List(a.gp, a.ip, a.stack + [v]))
  {
    var k := |a.stack| + 1;
    OffStep(f, |a.stack|);
    WriteWord(f, m.ram, k, v);
    var pushed := PushWord(m, v);
    assert pushed.ram == Write16(m.ram, Linear(f.ss, Off(f, k)), v);
    forall j | 1 <= j <= k ensures WordAt(f, pushed.ram, j) == (a.stack + [v])[j - 1] {
    }
  }

  /** The word on top is the end of the list, and raising SP drops it. */
  lemma PopRepresents(f: Frame, m: Machine, a: List)
    requires Represents(f, m, a) && a.stack != []
    ensures Read16(m.ram, StackTop(m)) == a.stack[|a.stack| - 1]
    ensures Represents(f, SetGp(m, SP, Add16(m.gp[SP], 2)), List(a.gp, a.ip, a.stack[..|a.stack| - 1]))
  {
    OffStep(f, |a.stack| - 1);
    assert WordAt(f, m.ram, |a.stack|) == a.stack[|a.stack| - 1];
  }

  lemma ValueRepresents(f: Frame, m: Machine, a: List, r: nat)
    requires Represents(f, m, a) && r < 8
    ensures m.gp[r] == RegValue(f, a, r)
  {
  }

  lemma AdvanceRepresents(f: Frame, m: Machine, a: List, inst: Inst)
    requires Represents(f, m, a)
    ensures Represents(f, Advance(m, inst), a.(ip := IpAfter(inst, a.ip)))
  {
  }

  lemma PushRefines(f: Frame, m: Machine, a: List, inst: Inst)
    requires Represents(f, m, a) && Allowed(f, a, inst) && (inst.category.Push? || inst.category.Call?)
    ensures Represents(f, Execute(m, inst), ListExecute(f, a, inst))
  {
    var moved, b := Advance(m, inst), a.(ip := IpAfter(inst, a.ip));
    AdvanceRepresents(f, m, a, inst);
    if inst.category.Push? {
      ValueRepresents(f, m, a, inst.opcode % 8);
      PushRepresents(f, moved, b, m.gp[inst.opcode % 8]);
    } else {
      PushRepresents(f, moved, b, IpAfter(inst, a.ip));
    }
  }

  lemma PopRefines(f: Frame, m: Machine, a: List, inst: Inst)
    requires Represents(f, m, a) && Allowed(f, a, inst) && (inst.category.Pop? || inst.category.Ret?)
    ensures Represents(f, Execute(m, inst), ListExecute(f, a, inst))
  {
    AdvanceRepresents(f, m, a, inst);
    PopRepresents(f, Advance(m, inst), a.(ip := IpAfter(inst, a.ip)));
  }

  lemma ExecuteRefines(f: Frame, m: Machine, a: List, inst: Inst)
    requires Represents(f, m, a) && Allowed(f, a, inst)
    ensures Represents(f, Execute(m, inst), ListExecute(f, a, inst))
  {
    if inst.category.Push? || inst.category.Call? {
      PushRefines(f, m, a, inst);
    } else if inst.category.Pop? || inst.category.Ret? {
      PopRefines(f, m, a, inst);
    } else {
      AdvanceRepresents(f, m, a, inst);
    }
  }

  /** Every step of the list machine is a step of the 8088 that comes back and goes on executing. */
  lemma StepRefines(f: Frame, m: Machine, a: List)
    requires Represents(f, m, a) && Listed(f, a)
    ensures !Hangs(m)
    ensures var (next, continues) := Step(m); continues && Represents(f, next, ListStep(f, a))
  {
    SameDecode(f, m, a);
    ExecuteRefines(f, m, a, InstAt(f, a.ip));
  }

  // ---- runs ----------------------------------------------------------------

  function Steps(m: Machine, n: nat): Machine
    decreases n
  {
    if n == 0 then m else Steps(Step(m).0, n - 1)
  }

  /** The first `n` steps from `a` are steps of the list machine that keep at least `floor` words. */
  ghost predicate Stays(f: Frame, a: List, n: nat, floor: nat)
    requires FrameOk(f)
    decreases n
  {
    |a.stack| >= floor && (n > 0 ==> Listed(f, a) && Stays(f, ListStep(f, a), n - 1, floor))
  }

  ghost function ListSteps(f: Frame, a: List, n: nat): List
    requires FrameOk(f) && Stays(f, a, n, 0)
    decreases n
  {
    if n == 0 then a else ListSteps(f, ListStep(f, a), n - 1)
  }

  lemma {:induction false} StaysLower(f: Frame, a: List, n: nat, floor: nat)
    requires FrameOk(f) && Stays(f, a, n, floor)
    ensures Stays(f, a, n, 0)
    decreases n
  {
    if n > 0 {
      StaysLower(f, ListStep(f, a), n - 1, floor);
    }
  }

  /** Any run of such steps behaves as the list stack. */
  lemma {:induction false} RunRefines(f: Frame, m: Machine, a: List, n: nat)
    requires Represents(f, m, a) && Stays(f, a, n, 0)
    ensures Represents(f, Steps(m, n), ListSteps(f, a, n))
    decreases n
  {
    if n > 0 {
      StepRefines(f, m, a);
      RunRefines(f, Step(m).0, ListStep(f, a), n - 1);
    }
  }

  /** Words below the floor are never touched. */
  lemma {:induction false} FloorKept(f: Frame, a: List, n: nat, floor: nat)
    requires FrameOk(f) && Stays(f, a, n, floor)
    ensures Stays(f, a, n, 0)
    ensures |ListSteps(f, a, n).stack| >= floor
    ensures ListSteps(f, a, n).stack[..floor] == a.stack[..floor]
    decreases n
  {
    StaysLower(f, a, n, floor);
    if n > 0 {
      var b := ListStep(f, a);
      assert |b.stack| >= floor && b.stack[..floor] == a.stack[..floor];
      FloorKept(f, b, n - 1, floor);
    }
  }

  lemma {:induction false} StepsSplit(m: Machine, n: nat)
    ensures Steps(m, n + 1) == Step(Steps(m, n)).0
    decreases n
  {
    if n > 0 {
      StepsSplit(Step(m).0, n - 1);
    }
  }

  /** A run that keeps the return address and ends in RET with only that address left. */
  lemma BodyReturns(f: Frame, m: Machine, a: List, n: nat, base: seq<Word16>, ret: Word16)
    requires Represents(f, m, a) && a.stack == base + [ret]
    requires Stays(f, a, n, |base| + 1) && Stays(f, a, n, 0)
    requires var end := ListSteps(f, a, n);
             Listed(f, end) && InstAt(f, end.ip).category.Ret? && |end.stack| == |base| + 1
    ensures Represents(f, Steps(m, n + 1), List(ListSteps(f, a, n).gp, ret, base))
  {
    RunRefines(f, m, a, n);
    FloorKept(f, a, n, |base| + 1);
    var end := ListSteps(f, a, n);
    assert end.stack == end.stack[..|base| + 1];
    ReturnStep(f, Steps(m, n), end, base);
    StepsSplit(m, n);
  }

  lemma CallStep(f: Frame, a: List)
    requires FrameOk(f) && Listed(f, a) && InstAt(f, a.ip).category.Call?
    ensures ListStep(f, a).stack == a.stack + [IpAfter(InstAt(f, a.ip), a.ip)]
  {
  }

  /**
   * A balanced callee returns. From a CALL, if the callee runs n steps (pushes, pops and calls nested
   * to any depth) without ever popping its return address, and then executes RET with only that
   * address left, the machine is back at the instruction after the CALL, with SP and every word that
   * was on the stack as before.
   */
  lemma CallReturns(f: Frame, m: Machine, a: List, n: nat)
    requires Represents(f, m, a) && Listed(f, a) && InstAt(f, a.ip).category.Call?
    requires Stays(f, ListStep(f, a), n, |a.stack| + 1) && Stays(f, ListStep(f, a), n, 0)
    requires var end := ListSteps(f, ListStep(f, a), n);
             Listed(f, end) && InstAt(f, end.ip).category.Ret? && |end.stack| == |a.stack| + 1
    ensures var back := Steps(m, n + 2);
            && back.ip == IpAfter(InstAt(f, a.ip), m.ip)
            && back.gp[SP] == m.gp[SP] && back.ss == m.ss && back.cs == m.cs
            && Represents(f, back, List(ListSteps(f, ListStep(f, a), n).gp, back.ip, a.stack))
  {
    StepRefines(f, m, a);
    CallStep(f, a);
    BodyReturns(f, Step(m).0, ListStep(f, a), n, a.stack, IpAfter(InstAt(f, a.ip), a.ip));
    StepsFirst(m, n + 1);
  }

  lemma StepsFirst(m: Machine, n: nat)
    ensures Steps(m, n + 1) == Steps(Step(m).0, n)
  {
  }

  /** RET with one word above `rest` jumps to that word and leaves `rest`. */
  lemma ReturnStep(f: Frame, m: Machine, a: List, rest: seq<Word16>)
    requires Represents(f, m, a) && Listed(f, a) && InstAt(f, a.ip).category.Ret?
    requires |a.stack| == |rest| + 1 && a.stack[..|rest|] == rest
    ensures Represents(f, Step(m).0, List(a.gp, a.stack[|rest|], rest))
  {
    StepRefines(f, m, a);
    assert ListStep(f, a) == List(a.gp, a.stack[|rest|], rest);
  }

  /** A push followed by a pop moves a register into another and leaves stack and SP as they were. */
  lemma PushPop(f: Frame, m: Machine, a: List)
    requires Represents(f, m, a) && Listed(f, a) && InstAt(f, a.ip).category.Push?
    requires Listed(f, ListStep(f, a)) && InstAt(f, ListStep(f, a).ip).category.Pop?
    ensures var from, to := InstAt(f, a.ip).opcode % 8, InstAt(f, ListStep(f, a).ip).opcode % 8;
            var after := Steps(m, 2);
            && after.gp[to] == m.gp[from] && after.gp[SP] == m.gp[SP]
            && Represents(f, after, List(a.gp[to := m.gp[from]], after.ip, a.stack))
  {
    var pushed := ListStep(f, a);
    ValueRepresents(f, m, a, InstAt(f, a.ip).opcode % 8);
    StepRefines(f, m, a);
    StepRefines(f, Step(m).0, pushed);
    assert pushed.stack[..|a.stack|] == a.stack;
    assert Steps(m, 2) == Step(Step(m).0).0 by {
      assert Steps(Step(m).0, 1) == Step(Step(m).0).0;
    }
  }
}

/** Pushes, pops, calls and returns of the interpreter behave as a list stack whenever the installed
  * callbacks behave as memory. */
module MicroStack {
  import opened Words
  import opened Ir
  import opened Machine

  const MAX_WORDS := 0x2000_0000_0000_0000

  /** A write of at most eight bytes at `a` can reach the eight bytes at `b`. */
  predicate Touches(a: Word, b: Word) { SubW(a, b) < 8 || SubW(b, a) < 8 }

  /** What an eight-byte read would return after these calls. */
  function Cell(cb: Callbacks, calls: seq<MemCall>, addr: Word): Word
    requires cb.read.Some?
  {
    cb.read.value(calls, addr, true)
  }

  predicate ReadsBack(cb: Callbacks, calls: seq<MemCall>, addr: Word, v: Word)
    requires cb.read.Some?
  {
    Cell(cb, calls + [WriteCall(addr, true, v)], addr) == v
  }

  predicate Unaffected(cb: Callbacks, calls: seq<MemCall>, call: MemCall, addr: Word)
    requires cb.read.Some?
  {
    (call.WriteCall? ==> !Touches(call.addr, addr)) ==> Cell(cb, calls + [call], addr) == Cell(cb, calls, addr)
  }

  /** Both callbacks are installed; a full write is read back until something near it is written. */
  ghost predicate Memory(cb: Callbacks) {
    && cb.read.Some? && cb.write
    && (forall calls, addr, v :: ReadsBack(cb, calls, addr, v))
    && (forall calls, call, addr :: Unaffected(cb, calls, call, addr))
  }

  /** The plainest such memory: the last full write, unless something near it was written since. */
  function LastWritten(calls: seq<MemCall>, addr: Word, wide: bool): Word
    decreases |calls|
  {
    if calls == [] then 0
    else
      var call := calls[|calls| - 1];
      if call.WriteCall? && call.addr == addr && call.wide then call.value
      else if call.WriteCall? && Touches(call.addr, addr) then 0
      else LastWritten(calls[..|calls| - 1], addr, wide)
  }

  lemma MemoryExists()
    ensures Memory(Callbacks(Some(LastWritten), true))
  {
    var cb := Callbacks(Some(LastWritten), true);
    forall calls, addr, v ensures ReadsBack(cb, calls, addr, v) {
      assert LastWritten(calls + [WriteCall(addr, true, v)], addr, true) == v;
    }
    forall calls, call, addr ensures Unaffected(cb, calls, call, addr) {
      assert (calls + [call])[..|calls|] == calls;
    }
  }

  // ---- the list stack ------------------------------------------------------

  /** Address of the k-th word pushed, counting from 1; the base itself for 0. */
  function At(base: Word, k: nat): Word
    requires k <= MAX_WORDS
  {
    if base >= 8 * k then base - 8 * k else base - 8 * k + W64
  }

  /** Registers (the stack pointer's own entry is ignored) and the words on the stack, bottom first. */
  datatype List = List(regs: Regs, words: seq<Word>)

  function ListRead(base: Word, l: List, r: Register): Word
    requires |l.words| <= MAX_WORDS
  {
    if r == RSP then At(base, |l.words|) else if r == RNone then 0 else l.regs[r]
  }

  function ListWrite(l: List, r: Register, v: Word): List {
    if r == RNone then l else l.(regs := l.regs[r := v])
  }

  ghost predicate Represents(cb: Callbacks, st: State, base: Word, l: List) {
    && Memory(cb) && |l.words| <= MAX_WORDS
    && (forall r: Register :: st.Read(r) == ListRead(base, l, r))
    && (forall k :: 1 <= k <= |l.words| ==> Cell(cb, st.calls, At(base, k)) == l.words[k - 1])
  }

  lemma CellsApart(base: Word, j: nat, k: nat)
    requires 1 <= j <= MAX_WORDS && 1 <= k <= MAX_WORDS && j != k
    ensures !Touches(At(base, j), At(base, k))
  {
    var d := 8 * (k - j);
    var gap := At(base, j) - At(base, k);
    assert gap == d || gap == d - W64 || gap == d + W64;
    WrappedDistance(At(base, j), At(base, k), d);
  }

  lemma WrappedDistance(a: Word, b: Word, d: int)
    requires a - b == d || a - b == d - W64 || a - b == d + W64
    requires 8 <= d <= W64 - 8 || -(W64 - 8) <= d <= -8
    ensures !Touches(a, b)
  {
    assert SubW(a, b) == if a >= b then a - b else a - b + W64;
    assert SubW(b, a) == if b >= a then b - a else b - a + W64;
  }

  lemma NextAt(base: Word, k: nat)
    requires k < MAX_WORDS
    ensures SubW(At(base, k), 8) == At(base, k + 1) && AddW(At(base, k + 1), 8) == At(base, k)
  {
  }

  /** A callback call that touches none of the words leaves them. */
  lemma WordsKept(cb: Callbacks, calls: seq<MemCall>, call: MemCall, base: Word, n: nat)
    requires Memory(cb) && n <= MAX_WORDS
    requires call.WriteCall? ==> forall k :: 1 <= k <= n ==> !Touches(call.addr, At(base, k))
    ensures forall k :: 1 <= k <= n ==> Cell(cb, calls + [call], At(base, k)) == Cell(cb, calls, At(base, k))
  {
    forall k | 1 <= k <= n ensures Cell(cb, calls + [call], At(base, k)) == Cell(cb, calls, At(base, k)) {
      assert Unaffected(cb, calls, call, At(base, k));
    }
  }

  /** Only the stack pointer moved, to where the other list has it. */
  lemma SameRegisters(st: State, d: State, base: Word, l: List, m: List)
    requires |l.words| <= MAX_WORDS && |m.words| <= MAX_WORDS && m.regs == l.regs
    requires forall r: Register :: st.Read(r) == ListRead(base, l, r)
    requires d.regs == st.regs[RSP := At(base, |m.words|)]
    ensures forall r: Register :: d.Read(r) == ListRead(base, m, r)
  {
    forall r: Register ensures d.Read(r) == ListRead(base, m, r) {
      assert st.Read(r) == ListRead(base, l, r);
    }
  }

  /** Pushing any value appends it. */
  lemma PushAppends(cb: Callbacks, st: State, base: Word, l: List, v: Word)
    requires Represents(cb, st, base, l) && |l.words| < MAX_WORDS
    ensures Represents(cb, Push(cb, st, v), base, l.(words := l.words + [v]))
  {
    var k := |l.words| + 1;
    var addr := At(base, k);
    NextAt(base, |l.words|);
    assert st.Read(RSP) == At(base, |l.words|);
    var call := WriteCall(addr, true, v);
    assert Push(cb, st, v).calls == st.calls + [call];
    forall j | 1 <= j <= |l.words| ensures !Touches(addr, At(base, j)) {
      CellsApart(base, k, j);
    }
    WordsKept(cb, st.calls, call, base, |l.words|);
    assert ReadsBack(cb, st.calls, addr, v);
    SameRegisters(st, Push(cb, st, v), base, l, l.(words := l.words + [v]));
  }

  /** Reading the top word and raising the pointer removes it. */
  lemma TopRemoved(cb: Callbacks, st: State, base: Word, l: List)
    requires Represents(cb, st, base, l) && l.words != []
    ensures st.MemReadValue(cb, st.Read(RSP), true) == l.words[|l.words| - 1]
    ensures Represents(cb, st.MemRead(cb, st.Read(RSP), true).Write(RSP, AddW(st.Read(RSP), 8)), base,
                       l.(words := l.words[..|l.words| - 1]))
  {
    var n := |l.words|;
    assert st.Read(RSP) == At(base, n);
    NextAt(base, n - 1);
    WordsKept(cb, st.calls, ReadCall(At(base, n), true), base, n);
    SameRegisters(st, st.MemRead(cb, st.Read(RSP), true).Write(RSP, AddW(st.Read(RSP), 8)), base, l,
                  l.(words := l.words[..n - 1]));
  }

  lemma WriteRepresents(cb: Callbacks, st: State, base: Word, l: List, r: Register, v: Word)
    requires Represents(cb, st, base, l) && r != RSP
    ensures Represents(cb, st.Write(r, v), base, ListWrite(l, r, v))
  {
    forall q: Register ensures st.Write(r, v).Read(q) == ListRead(base, ListWrite(l, r, v), q) {
      assert st.Read(q) == ListRead(base, l, q);
    }
  }

  // ---- steps and runs ------------------------------------------------------

  predicate IsStackOp(code: MicroOpCode) {
    code.PushR? || code.PopR? || code.CallRel? || code.CallAbs? || code.Ret?
  }

  /** There is room for a push or call, and a word for a pop or return; a pop names no stack pointer. */
  predicate Allowed(l: List, inst: MicroOpInst) {
    if inst.code.PopR? then l.words != [] && inst.dst != RSP
    else if inst.code.Ret? then l.words != []
    else |l.words| < MAX_WORDS
  }

  /** The list after the operation. */
  function ListStep(base: Word, l: List, inst: MicroOpInst): List
    requires |l.words| <= MAX_WORDS && IsStackOp(inst.code) && Allowed(l, inst)
  {
    if inst.code.PushR? then l.(words := l.words + [ListRead(base, l, inst.src1)])
    else if inst.code.PopR? then
      ListWrite(l.(words := l.words[..|l.words| - 1]), inst.dst, l.words[|l.words| - 1])
    else if inst.code.Ret? then l.(words := l.words[..|l.words| - 1])
    else l.(words := l.words + [ListRead(base, l, RAX)])
  }

  /** The successor address: a call leaves the address in RAX to return to, a return takes it back. */
  function ListIp(base: Word, l: List, inst: MicroOpInst, ip: Option<Word>): Option<Word>
    requires |l.words| <= MAX_WORDS && IsStackOp(inst.code) && Allowed(l, inst)
  {
    if inst.code.CallRel? then Some(AddW(ListRead(base, l, RAX), inst.immediate))
    else if inst.code.CallAbs? then Some(ListRead(base, ListStep(base, l, inst), inst.src1))
    else if inst.code.Ret? then Some(l.words[|l.words| - 1])
    else ip
  }

  lemma PushesRefine(cb: Callbacks, st: State, base: Word, l: List, inst: MicroOpInst, ip: Option<Word>)
    requires Represents(cb, st, base, l) && Allowed(l, inst)
    requires inst.code.PushR? || inst.code.CallRel? || inst.code.CallAbs?
    ensures var o := StepControl(cb, inst, st, ip);
            o.Done? && o.ip == ListIp(base, l, inst, ip) && Represents(cb, o.st, base, ListStep(base, l, inst))
  {
    PushAppends(cb, st, base, l, if inst.code.PushR? then st.Read(inst.src1) else st.Read(RAX));
  }

  lemma PopsRefine(cb: Callbacks, st: State, base: Word, l: List, inst: MicroOpInst, ip: Option<Word>)
    requires Represents(cb, st, base, l) && Allowed(l, inst)
    requires inst.code.PopR? || inst.code.Ret?
    ensures var o := StepControl(cb, inst, st, ip);
            o.Done? && o.ip == ListIp(base, l, inst, ip) && Represents(cb, o.st, base, ListStep(base, l, inst))
  {
    TopRemoved(cb, st, base, l);
    if inst.code.PopR? {
      var raised := st.MemRead(cb, st.Read(RSP), true).Write(RSP, AddW(st.Read(RSP), 8));
      WriteRepresents(cb, raised, base, l.(words := l.words[..|l.words| - 1]), inst.dst, l.words[|l.words| - 1]);
    }
  }

  /** Every push, pop, call and return is the list operation, for every stack pointer, across the wrap. */
  lemma StepRefines(cb: Callbacks, st: State, base: Word, l: List, inst: MicroOpInst, ip: Option<Word>)
    requires Represents(cb, st, base, l) && IsStackOp(inst.code) && Allowed(l, inst)
    ensures var o := Step(cb, inst, st, ip);
            o.Done? && o.ip == ListIp(base, l, inst, ip) && Represents(cb, o.st, base, ListStep(base, l, inst))
  {
    ControlStep(cb, inst, st, ip);
    if inst.code.PopR? || inst.code.Ret? {
      PopsRefine(cb, st, base, l, inst, ip);
    } else {
      PushesRefine(cb, st, base, l, inst, ip);
    }
  }

  /** Pushes and pops that never go below the words they found nor beyond the limit. */
  predicate AllAllowed(base: Word, l: List, ops: seq<MicroOpInst>)
    requires |l.words| <= MAX_WORDS
    decreases |ops|
  {
    ops == []
    || ((ops[0].code.PushR? || ops[0].code.PopR?) && Allowed(l, ops[0])
        && AllAllowed(base, ListStep(base, l, ops[0]), ops[1..]))
  }

  function ListRun(base: Word, l: List, ops: seq<MicroOpInst>): List
    requires |l.words| <= MAX_WORDS && AllAllowed(base, l, ops)
    decreases |ops|
  {
    if ops == [] then l else ListRun(base, ListStep(base, l, ops[0]), ops[1..])
  }

  /** A block of pushes and pops, of any length, runs as the list stack does. */
  lemma {:induction false} RunRefines(cb: Callbacks, st: State, base: Word, l: List, ops: seq<MicroOpInst>,
                                      ip: Option<Word>)
    requires Represents(cb, st, base, l) && AllAllowed(base, l, ops)
    ensures var o := Run(cb, ops, st, ip);
            o.Done? && o.ip == ip && Represents(cb, o.st, base, ListRun(base, l, ops))
    decreases |ops|
  {
    if ops != [] {
      StepRefines(cb, st, base, l, ops[0], ip);
      RunRefines(cb, Step(cb, ops[0], st, ip).st, base, ListStep(base, l, ops[0]), ops[1..], ip);
    }
  }

  /** Any state represents the empty list, with its own stack pointer as the base. */
  lemma StartRepresents(cb: Callbacks, st: State)
    requires Memory(cb)
    ensures Represents(cb, st, st.Read(RSP), List(st.regs, []))
  {
  }

  // ---- calls ---------------------------------------------------------------

  /** The operation makes no callback call and leaves the stack pointer. */
  predicate Quiet(cb: Callbacks, st: State, inst: MicroOpInst) {
    var o := Step(cb, inst, st, None);
    o.Done? && o.st.calls == st.calls && o.st.Read(RSP) == st.Read(RSP)
  }

  /** One operation of a callee: on the stack with at least `floor` words left, or quiet. */
  predicate BodyStep(cb: Callbacks, st: State, l: List, inst: MicroOpInst, floor: nat) {
    if IsStackOp(inst.code) then
      Allowed(l, inst) && (inst.code.PopR? || inst.code.Ret? ==> |l.words| > floor)
    else Quiet(cb, st, inst)
  }

  /** The list after it; a quiet operation may set any other register. */
  function BodyList(cb: Callbacks, st: State, base: Word, l: List, inst: MicroOpInst): List
    requires |l.words| <= MAX_WORDS && IsStackOp(inst.code) ==> Allowed(l, inst)
  {
    if |l.words| <= MAX_WORDS && IsStackOp(inst.code) then ListStep(base, l, inst)
    else List(Step(cb, inst, st, None).st.regs, l.words)
  }

  /** Operations executed one after another, whatever blocks they are in. */
  function Executed(cb: Callbacks, st: State, ops: seq<MicroOpInst>): State
    decreases |ops|
  {
    if ops == [] then st else Executed(cb, Step(cb, ops[0], st, None).st, ops[1..])
  }

  /** A callee that never takes the `floor` words it found: pushes, pops, calls and returns nested to any
    * depth, and quiet operations. */
  predicate Body(cb: Callbacks, st: State, base: Word, l: List, ops: seq<MicroOpInst>, floor: nat)
    decreases |ops|
  {
    ops == []
    || (|l.words| <= MAX_WORDS && BodyStep(cb, st, l, ops[0], floor)
        && Body(cb, Step(cb, ops[0], st, None).st, base, BodyList(cb, st, base, l, ops[0]), ops[1..], floor))
  }

  function BodyEnd(cb: Callbacks, st: State, base: Word, l: List, ops: seq<MicroOpInst>, floor: nat): List
    requires Body(cb, st, base, l, ops, floor)
    decreases |ops|
  {
    if ops == [] then l
    else BodyEnd(cb, Step(cb, ops[0], st, None).st, base, BodyList(cb, st, base, l, ops[0]), ops[1..], floor)
  }

  lemma BodyStepRefines(cb: Callbacks, st: State, base: Word, l: List, inst: MicroOpInst, floor: nat)
    requires Represents(cb, st, base, l) && BodyStep(cb, st, l, inst, floor) && floor <= |l.words|
    ensures var m := BodyList(cb, st, base, l, inst);
            && Represents(cb, Step(cb, inst, st, None).st, base, m)
            && floor <= |m.words| && m.words[..floor] == l.words[..floor]
  {
    if IsStackOp(inst.code) {
      StepRefines(cb, st, base, l, inst, None);
    } else {
      var d := Step(cb, inst, st, None).st;
      forall r: Register ensures d.Read(r) == ListRead(base, BodyList(cb, st, base, l, inst), r) {
        assert st.Read(RSP) == ListRead(base, l, RSP);
      }
    }
  }

  lemma {:induction false} BodyRefines(cb: Callbacks, st: State, base: Word, l: List, ops: seq<MicroOpInst>, floor: nat)
    requires Represents(cb, st, base, l) && Body(cb, st, base, l, ops, floor) && floor <= |l.words|
    ensures var m := BodyEnd(cb, st, base, l, ops, floor);
            && Represents(cb, Executed(cb, st, ops), base, m)
            && floor <= |m.words| && m.words[..floor] == l.words[..floor]
    decreases |ops|
  {
    if ops != [] {
      BodyStepRefines(cb, st, base, l, ops[0], floor);
      BodyRefines(cb, Step(cb, ops[0], st, None).st, base, BodyList(cb, st, base, l, ops[0]), ops[1..], floor);
    }
  }

  /** The callee ends with as many words as it found. */
  predicate Balanced(cb: Callbacks, st: State, base: Word, l: List, ops: seq<MicroOpInst>) {
    Body(cb, st, base, l, ops, |l.words|) && |BodyEnd(cb, st, base, l, ops, |l.words|).words| == |l.words|
  }

  lemma BalancedKeepsWords(cb: Callbacks, st: State, base: Word, l: List, ops: seq<MicroOpInst>) returns (m: List)
    requires Represents(cb, st, base, l) && Balanced(cb, st, base, l, ops)
    ensures Represents(cb, Executed(cb, st, ops), base, m) && m.words == l.words
  {
    BodyRefines(cb, st, base, l, ops, |l.words|);
    m := BodyEnd(cb, st, base, l, ops, |l.words|);
    assert m.words == m.words[..|l.words|] && l.words == l.words[..|l.words|];
  }

  /** A balanced callee returns: after a call, any body that never takes the return address or a word
    * below it and leaves nothing above it, then a return, comes back to the address RAX had at the call,
    * with the caller's stack pointer and every word of the caller's stack. */
  lemma CallReturns(cb: Callbacks, st: State, base: Word, l: List, call: MicroOpInst, ops: seq<MicroOpInst>,
                    ret: MicroOpInst)
    requires Represents(cb, st, base, l) && Allowed(l, call)
    requires (call.code.CallRel? || call.code.CallAbs?) && ret.code.Ret?
    requires Balanced(cb, Step(cb, call, st, None).st, base, ListStep(base, l, call), ops)
    ensures var o := Step(cb, ret, Executed(cb, Step(cb, call, st, None).st, ops), None);
            && o.Done? && o.ip == Some(st.Read(RAX)) && o.st.Read(RSP) == st.Read(RSP)
            && exists regs :: Represents(cb, o.st, base, List(regs, l.words))
  {
    StepRefines(cb, st, base, l, call, None);
    CallPushes(cb, st, base, l, call);
    var end := BalancedKeepsWords(cb, Step(cb, call, st, None).st, base, ListStep(base, l, call), ops);
    ReturnsTo(cb, Executed(cb, Step(cb, call, st, None).st, ops), base, end, l.words, st.Read(RAX), ret);
  }

  lemma CallPushes(cb: Callbacks, st: State, base: Word, l: List, call: MicroOpInst)
    requires Represents(cb, st, base, l) && (call.code.CallRel? || call.code.CallAbs?) && Allowed(l, call)
    ensures ListStep(base, l, call).words == l.words + [st.Read(RAX)] && st.Read(RSP) == At(base, |l.words|)
  {
    assert st.Read(RAX) == ListRead(base, l, RAX) && st.Read(RSP) == ListRead(base, l, RSP);
  }

  lemma ReturnsTo(cb: Callbacks, st: State, base: Word, l: List, words: seq<Word>, address: Word, ret: MicroOpInst)
    requires Represents(cb, st, base, l) && l.words == words + [address] && ret.code.Ret?
    ensures var o := Step(cb, ret, st, None);
            && o.Done? && o.ip == Some(address) && o.st.Read(RSP) == At(base, |words|)
            && Represents(cb, o.st, base, List(l.regs, words))
  {
    StepRefines(cb, st, base, l, ret, None);
    assert l.words[..|l.words| - 1] == words;
  }

  function ExchangeOps(r: Register, s: Register): seq<MicroOpInst> {
    [PushOf(r), PushOf(s), PopOf(r), PopOf(s)]
  }

  /** The exchange on the list machine. */
  lemma ExchangeOnList(regs: Regs, base: Word, r: Register, s: Register)
    requires r < 32 && s < 32 && r != s && r != RSP && s != RSP
    ensures AllAllowed(base, List(regs, []), ExchangeOps(r, s))
    ensures ListRun(base, List(regs, []), ExchangeOps(r, s)) == List(regs[r := regs[s]][s := regs[r]], [])
  {
    var l0, l1, l2 := List(regs, []), List(regs, [regs[r]]), List(regs, [regs[r], regs[s]]);
    var l3, l4 := List(regs[r := regs[s]], [regs[r]]), List(regs[r := regs[s]][s := regs[r]], []);
    assert ListStep(base, l0, PushOf(r)) == l1 && ListStep(base, l1, PushOf(s)) == l2;
    assert ListStep(base, l2, PopOf(r)) == l3 && ListStep(base, l3, PopOf(s)) == l4;
    var p1, p2, p3 := [PopOf(s)], [PopOf(r), PopOf(s)], [PushOf(s), PopOf(r), PopOf(s)];
    assert ExchangeOps(r, s)[1..] == p3 && p3[1..] == p2 && p2[1..] == p1 && p1[1..] == [];
    RunThis(base, l3, l4, p1, []);
    RunThis(base, l2, l4, p2, p1);
    RunThis(base, l1, l4, p3, p2);
    RunThis(base, l0, l4, ExchangeOps(r, s), p3);
  }

  /** Two registers pushed and popped in the same order are exchanged, whatever the stack held. */
  lemma ExchangeThroughStack(cb: Callbacks, st: State, r: Register, s: Register)
    requires Memory(cb) && r < 32 && s < 32 && r != s && r != RSP && s != RSP
    ensures var o := Run(cb, ExchangeOps(r, s), st, None);
            && o.Done? && o.st.Read(r) == st.Read(s) && o.st.Read(s) == st.Read(r)
            && forall q: Register :: q != r && q != s ==> o.st.Read(q) == st.Read(q)
  {
    var base := st.Read(RSP);
    StartRepresents(cb, st);
    ExchangeOnList(st.regs, base, r, s);
    RunRefines(cb, st, base, List(st.regs, []), ExchangeOps(r, s), None);
  }

  lemma RunThis(base: Word, l: List, end: List, ops: seq<MicroOpInst>, rest: seq<MicroOpInst>)
    requires |l.words| < 4 && ops != [] && ops[1..] == rest
    requires (ops[0].code.PushR? || ops[0].code.PopR?) && Allowed(l, ops[0])
    requires AllAllowed(base, ListStep(base, l, ops[0]), rest) && ListRun(base, ListStep(base, l, ops[0]), rest) == end
    ensures AllAllowed(base, l, ops) && ListRun(base, l, ops) == end
  {
  }

  function PushOf(r: Register): MicroOpInst { MicroOpInst(PushR, RNone, r, RNone, 0, 8) }

  function PopOf(r: Register): MicroOpInst { MicroOpInst(PopR, r, RNone, RNone, 0, 8) }
}

/** The simulated processor with the hypervisor off: what its units see of a stream, and what its clock adds up. */
module Pentium {
  import opened PentiumCache

  datatype Kind = Arith | MemRead | MemWrite | BranchKind | ContextSwitch | Syscall | PageWalk

  datatype Instr = Instr(pc: int, kind: Kind, address: int, taken: bool)

  datatype Cpu = Cpu(cycles: real, instructions: nat, icache: Cache, dcache: Cache, btb: Btb)

  predicate CpuOk(m: Cpu) { CacheOk(m.icache) && CacheOk(m.dcache) && |m.btb.table| > 0 }

  predicate IsMemory(op: Instr) { op.kind == MemRead || op.kind == MemWrite }

  /** Cycles of the execution stage, given the processor before the instruction. */
  function ExecCycles(m: Cpu, op: Instr): real
    requires CpuOk(m)
  {
    match op.kind
    case Arith => 0.5
    case MemRead => if Hit(m.dcache, op.address) then 1.0 else 40.0
    case MemWrite => if Hit(m.dcache, op.address) then 1.0 else 40.0
    case BranchKind => if Foreseen(m.btb, Branch(op.pc, op.taken)) then 0.5 else 12.0
    case ContextSwitch => 150.0
    case Syscall => 32.0
    case PageWalk => 80.0
  }

  /** Decode stall, execution and instruction fetch. */
  function Cycles(m: Cpu, op: Instr): real
    requires CpuOk(m)
  {
    4.0 + ExecCycles(m, op) + (if Hit(m.icache, op.pc) then 0.0 else 40.0)
  }

  function Execute(m: Cpu, op: Instr): (r: Cpu)
    requires CpuOk(m)
    ensures CpuOk(r)
  {
    Cpu(m.cycles + Cycles(m, op), m.instructions + 1, Access(m.icache, op.pc),
        if IsMemory(op) then Access(m.dcache, op.address) else m.dcache,
        if op.kind == BranchKind then Resolve(m.btb, Branch(op.pc, op.taken)) else m.btb)
  }

  /** The stream in order, the last instruction executed last. */
  function ExecuteAll(m: Cpu, ops: seq<Instr>): (r: Cpu)
    requires CpuOk(m)
    ensures CpuOk(r)
    decreases |ops|
  {
    if ops == [] then m else Execute(ExecuteAll(m, ops[..|ops| - 1]), ops[|ops| - 1])
  }

  // ---- what each unit sees of a stream -------------------------------------

  function Pcs(ops: seq<Instr>): (pcs: seq<int>)
    ensures |pcs| == |ops| && forall k :: 0 <= k < |ops| ==> pcs[k] == ops[k].pc
  {
    seq(|ops|, k requires 0 <= k < |ops| => ops[k].pc)
  }

  function DataAddresses(ops: seq<Instr>): seq<int>
    decreases |ops|
  {
    if ops == [] then []
    else
      var last := ops[|ops| - 1];
      DataAddresses(ops[..|ops| - 1]) + (if IsMemory(last) then [last.address] else [])
  }

  function Branches(ops: seq<Instr>): seq<Branch>
    decreases |ops|
  {
    if ops == [] then []
    else
      var last := ops[|ops| - 1];
      Branches(ops[..|ops| - 1]) + (if last.kind == BranchKind then [Branch(last.pc, last.taken)] else [])
  }

  function CountOf(ops: seq<Instr>, kind: Kind): nat
    decreases |ops|
  {
    if ops == [] then 0 else CountOf(ops[..|ops| - 1], kind) + (if ops[|ops| - 1].kind == kind then 1 else 0)
  }

  /** Each unit behaves as if it saw its own part of the stream alone. */
  lemma {:induction false} UnitsAreIndependent(m: Cpu, ops: seq<Instr>)
    requires CpuOk(m)
    ensures var r := ExecuteAll(m, ops);
            && r.icache == Accesses(m.icache, Pcs(ops))
            && r.dcache == Accesses(m.dcache, DataAddresses(ops))
            && r.btb == ResolveAll(m.btb, Branches(ops))
            && r.instructions == m.instructions + |ops|
    decreases |ops|
  {
    if ops != [] {
      var front, last := ops[..|ops| - 1], ops[|ops| - 1];
      UnitsAreIndependent(m, front);
      assert Pcs(ops)[..|ops| - 1] == Pcs(front);
      DataSplits(ops);
      BranchSplits(ops);
    }
  }

  lemma DataSplits(ops: seq<Instr>)
    requires ops != []
    ensures var d, last := DataAddresses(ops), ops[|ops| - 1];
            if IsMemory(last) then
              d != [] && d[..|d| - 1] == DataAddresses(ops[..|ops| - 1]) && d[|d| - 1] == last.address
            else d == DataAddresses(ops[..|ops| - 1])
  {
  }

  lemma BranchSplits(ops: seq<Instr>)
    requires ops != []
    ensures var d, last := Branches(ops), ops[|ops| - 1];
            if last.kind == BranchKind then
              d != [] && d[..|d| - 1] == Branches(ops[..|ops| - 1]) && d[|d| - 1] == Branch(last.pc, last.taken)
            else d == Branches(ops[..|ops| - 1])
  {
  }

  /** The cycles a processor should have spent, from its counters and the mix of the stream. */
  function Bill(m: Cpu, ops: seq<Instr>): real {
    4.0 * m.instructions as real + 40.0 * m.icache.misses as real
    + 1.0 * m.dcache.hits as real + 40.0 * m.dcache.misses as real
    + 0.5 * m.btb.hits as real + 12.0 * m.btb.misses as real
    + 0.5 * CountOf(ops, Arith) as real + 150.0 * CountOf(ops, ContextSwitch) as real
    + 32.0 * CountOf(ops, Syscall) as real + 80.0 * CountOf(ops, PageWalk) as real
  }

  predicate Fresh(m: Cpu) {
    && m.cycles == 0.0 && m.instructions == 0 && Empty(m.icache) && Empty(m.dcache) && AllNotTaken(m.btb)
  }

  /** Every cycle is accounted for by the counters: over every stream the clock is the bill. */
  lemma {:induction false} CyclesAreBilled(m: Cpu, ops: seq<Instr>)
    requires Fresh(m)
    ensures ExecuteAll(m, ops).cycles == Bill(ExecuteAll(m, ops), ops)
    decreases |ops|
  {
    if ops != [] {
      var front, last := ops[..|ops| - 1], ops[|ops| - 1];
      CyclesAreBilled(m, front);
      OneMoreBilled(ExecuteAll(m, front), front, last, ops);
    }
  }

  lemma OneMoreBilled(m: Cpu, front: seq<Instr>, last: Instr, ops: seq<Instr>)
    requires CpuOk(m) && ops != [] && front == ops[..|ops| - 1] && last == ops[|ops| - 1]
    ensures Bill(Execute(m, last), ops) == Bill(m, front) + Cycles(m, last)
  {
    var d := Execute(m, last);
    assert d.icache.misses == m.icache.misses + (if Hit(m.icache, last.pc) then 0 else 1);
    assert forall kind :: CountOf(ops, kind) == CountOf(front, kind) + (if last.kind == kind then 1 else 0);
  }
}

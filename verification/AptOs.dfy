/** The interpreter workload of the simulated operating system and its exact counter values. */
module AptOs {
  import opened Words
  import opened PentiumCache
  import opened Pentium

  const PER_BYTECODE := 11

  function PcBase(i: nat): int { 0x30000 + i * 40 }

  /** Instruction `r` of bytecode `i`: a fetch, four decodes, the dispatch, five to execute. */
  function InstrAt(i: nat, r: nat): Instr
    requires r < PER_BYTECODE
  {
    var pc := PcBase(i) + 4 * r;
    if r == 0 then Instr(pc, MemRead, pc, false)
    else if r == 5 then Instr(pc, BranchKind, PcBase(i) + 40, i % 2 == 0)
    else Instr(pc, Arith, 0, false)
  }

  /** The first `k` instructions of the workload. */
  function Prefix(k: nat): (s: seq<Instr>)
    ensures |s| == k && forall j :: 0 <= j < k ==> s[j] == InstrAt(j / PER_BYTECODE, j % PER_BYTECODE)
  {
    seq(k, j requires 0 <= j < k => InstrAt(j / PER_BYTECODE, j % PER_BYTECODE))
  }

  function Workload(bytecodes: nat): seq<Instr> { Prefix(PER_BYTECODE * bytecodes) }

  lemma PrefixExtends(i: nat, r: nat)
    requires r < PER_BYTECODE
    ensures Prefix(PER_BYTECODE * i + r + 1) == Prefix(PER_BYTECODE * i + r) + [InstrAt(i, r)]
  {
    assert (PER_BYTECODE * i + r) / PER_BYTECODE == i && (PER_BYTECODE * i + r) % PER_BYTECODE == r;
  }

  method GenerateInterpretedWorkload(bytecodes: nat) returns (stream: seq<Instr>)
    ensures stream == Workload(bytecodes)
  {
    stream := [];
    for i := 0 to bytecodes
      invariant stream == Prefix(PER_BYTECODE * i)
    {
      var pcBase := 0x30000 + i * 40;
      PrefixExtends(i, 0);
      stream := stream + [Instr(pcBase, MemRead, pcBase, false)];
      for j := 0 to 4
        invariant stream == Prefix(PER_BYTECODE * i + 1 + j)
      {
        PrefixExtends(i, 1 + j);
        stream := stream + [Instr(pcBase + 4 + j * 4, Arith, 0, false)];
      }
      PrefixExtends(i, 5);
      stream := stream + [Instr(pcBase + 20, BranchKind, pcBase + 40, i % 2 == 0)];
      for j := 0 to 5
        invariant stream == Prefix(PER_BYTECODE * i + 6 + j)
      {
        PrefixExtends(i, 6 + j);
        stream := stream + [Instr(pcBase + 24 + j * 4, Arith, 0, false)];
      }
    }
  }

  // ---- what the units see --------------------------------------------------

  function Fetches(n: nat): (s: seq<int>)
    ensures |s| == n && forall i :: 0 <= i < n ==> s[i] == PcBase(i)
  {
    seq(n, i requires 0 <= i < n => PcBase(i))
  }

  function Dispatches(n: nat): (s: seq<Branch>)
    ensures |s| == n && forall i :: 0 <= i < n ==> s[i] == Branch(PcBase(i) + 20, i % 2 == 0)
  {
    seq(n, i requires 0 <= i < n => Branch(PcBase(i) + 20, i % 2 == 0))
  }

  /** What `ops` shows the units: `f` fetches, `b` dispatches and `a` plain instructions. */
  predicate Shows(ops: seq<Instr>, f: nat, b: nat, a: nat) {
    && DataAddresses(ops) == Fetches(f) && Branches(ops) == Dispatches(b) && CountOf(ops, Arith) == a
    && CountOf(ops, ContextSwitch) == CountOf(ops, Syscall) == CountOf(ops, PageWalk) == 0
  }

  lemma UnitsOneMore(ops: seq<Instr>, op: Instr)
    ensures DataAddresses(ops + [op]) == DataAddresses(ops) + (if IsMemory(op) then [op.address] else [])
    ensures Branches(ops + [op]) == Branches(ops) + (if op.kind == BranchKind then [Branch(op.pc, op.taken)] else [])
    ensures forall kind :: CountOf(ops + [op], kind) == CountOf(ops, kind) + (if op.kind == kind then 1 else 0)
  {
    assert (ops + [op])[..|ops|] == ops;
  }

  lemma OneMoreFetch(f: nat)
    ensures Fetches(f) + [PcBase(f)] == Fetches(f + 1)
  {
  }

  lemma OneMoreDispatch(b: nat)
    ensures Dispatches(b) + [Branch(PcBase(b) + 20, b % 2 == 0)] == Dispatches(b + 1)
  {
  }

  lemma ShowsOneMore(ops: seq<Instr>, f: nat, b: nat, a: nat, i: nat, r: nat)
    requires Shows(ops, f, b, a) && r < PER_BYTECODE && (r == 0 ==> f == i) && (r == 5 ==> b == i)
    ensures Shows(ops + [InstrAt(i, r)], if r == 0 then f + 1 else f, if r == 5 then b + 1 else b,
                  if r == 0 || r == 5 then a else a + 1)
  {
    UnitsOneMore(ops, InstrAt(i, r));
    if r == 0 {
      OneMoreFetch(f);
    } else if r == 5 {
      OneMoreDispatch(b);
    }
  }

  /** Plain instructions among the first `r` of a bytecode. */
  function PlainOf(r: nat): nat
    requires r <= PER_BYTECODE
  {
    if r == 0 then 0 else if r <= 5 then r - 1 else r - 2
  }

  function Reached(i: nat, r: nat, at: nat): nat { if r > at then i + 1 else i }

  predicate ShownAt(i: nat, r: nat)
    requires r <= PER_BYTECODE
  {
    Shows(Prefix(PER_BYTECODE * i + r), Reached(i, r, 0), Reached(i, r, 5), 9 * i + PlainOf(r))
  }

  lemma ShownNext(i: nat, r: nat)
    requires r < PER_BYTECODE && ShownAt(i, r)
    ensures ShownAt(i, r + 1)
  {
    PrefixExtends(i, r);
    ShowsOneMore(Prefix(PER_BYTECODE * i + r), Reached(i, r, 0), Reached(i, r, 5), 9 * i + PlainOf(r), i, r);
  }

  lemma WholeBytecode(i: nat)
    requires ShownAt(i, PER_BYTECODE)
    ensures ShownAt(i + 1, 0)
  {
    assert PER_BYTECODE * (i + 1) + 0 == PER_BYTECODE * i + PER_BYTECODE;
  }

  lemma {:induction false} PrefixShows(i: nat, r: nat)
    requires r <= PER_BYTECODE
    ensures ShownAt(i, r)
    decreases i, r
  {
    if r > 0 {
      PrefixShows(i, r - 1);
      ShownNext(i, r - 1);
    } else if i > 0 {
      PrefixShows(i - 1, PER_BYTECODE);
      WholeBytecode(i - 1);
    }
  }

  lemma WorkloadPcsCreep(n: nat)
    ensures Creeps(Pcs(Workload(n)), 64)
  {
    forall k | 0 < k < PER_BYTECODE * n
      ensures Pcs(Workload(n))[k - 1] <= Pcs(Workload(n))[k] <= Pcs(Workload(n))[k - 1] + 64
    {
      assert k % PER_BYTECODE == 0 || (k - 1) / PER_BYTECODE == k / PER_BYTECODE;
    }
  }

  // ---- the dispatch branches -----------------------------------------------

  lemma ShiftedRemainder(x: nat, y: nat)
    ensures (x + y) % 256 == x % 256 <==> y % 256 == 0
  {
  }

  lemma TensOfPeriod(d: nat)
    requires 0 < d <= 128
    ensures 10 * d % 256 == 0 <==> d == 128
  {
    var q := 10 * d / 256;
    assert q == 0 || q == 1 || q == 2 || q == 3 || q == 4 || q == 5;
  }

  lemma SameEntry(i: nat, j: nat)
    requires i < j <= i + 128
    ensures Entry(256, PcBase(i) + 20) == Entry(256, PcBase(j) + 20) <==> j == i + 128
  {
    assert (PcBase(i) + 20) / 4 == 0xC005 + 10 * i && (PcBase(j) + 20) / 4 == 0xC005 + 10 * j;
    ShiftedRemainder(0xC005 + 10 * i, 10 * (j - i));
    TensOfPeriod(j - i);
  }

  lemma LastOf(k: nat, e: nat)
    requires k > 0
    ensures LastTaken(256, Dispatches(k), e)
            == if Entry(256, PcBase(k - 1) + 20) == e then (k - 1) % 2 == 0 else LastTaken(256, Dispatches(k - 1), e)
  {
    assert Dispatches(k)[..k - 1] == Dispatches(k - 1);
    assert Dispatches(k)[k - 1] == Branch(PcBase(k - 1) + 20, (k - 1) % 2 == 0);
  }

  lemma SameParity(j: nat)
    requires j >= 128
    ensures (j - 128) % 2 == j % 2
  {
  }

  lemma LastBack(k: nat, j: nat)
    requires 0 < k <= j < k + 128
    ensures var e := Entry(256, PcBase(j) + 20);
            LastTaken(256, Dispatches(k), e)
            == if j == k + 127 then j % 2 == 0 else LastTaken(256, Dispatches(k - 1), e)
  {
    SameEntry(k - 1, j);
    LastOf(k, Entry(256, PcBase(j) + 20));
    if j == k + 127 {
      SameParity(j);
    }
  }

  /** The last dispatch on the same entry is 128 bytecodes back, so it went the same way. */
  lemma {:induction false} LastDispatch(k: nat, j: nat)
    requires k <= j < k + 128
    ensures LastTaken(256, Dispatches(k), Entry(256, PcBase(j) + 20)) == (j >= 128 && j % 2 == 0)
    decreases k
  {
    if k > 0 {
      LastBack(k, j);
      if j != k + 127 {
        LastDispatch(k - 1, j);
      }
    }
  }

  /** The `n`-th dispatch is a change if it is one of the first 128 and goes the first way. */
  lemma NextChanges(n: nat)
    requires n > 0
    ensures Changes(256, Dispatches(n)) == Changes(256, Dispatches(n - 1)) + (if n <= 128 && n % 2 == 1 then 1 else 0)
  {
    var j := n - 1;
    assert Dispatches(n)[..j] == Dispatches(j);
    assert Dispatches(n)[j] == Branch(PcBase(j) + 20, j % 2 == 0);
    LastDispatch(j, j);
    assert j % 2 == 0 <==> n % 2 == 1;
  }

  lemma HalfOf(n: nat)
    requires n > 0
    ensures (Min(n, 128) + 1) / 2 == (Min(n - 1, 128) + 1) / 2 + (if n <= 128 && n % 2 == 1 then 1 else 0)
  {
  }

  lemma {:induction false} DispatchChanges(n: nat)
    ensures Changes(256, Dispatches(n)) == (Min(n, 128) + 1) / 2
    decreases n
  {
    if n > 0 {
      DispatchChanges(n - 1);
      NextChanges(n);
      HalfOf(n);
    }
  }

  // ---- the counters --------------------------------------------------------

  /** A new processor with 8 KB caches of 64-byte lines and 256 branch entries. */
  predicate Stock(m: Cpu) {
    && Fresh(m) && |m.btb.table| == 256
    && m.icache.lineSize == 64 && |m.icache.lines| == 128
    && m.dcache.lineSize == 64 && |m.dcache.lines| == 128
  }

  /** Half of the first 128 dispatches, and no later one, are mispredicted. */
  lemma InterpreterBranches(m: Cpu, ops: seq<Instr>, n: nat, a: nat)
    requires Stock(m) && Shows(ops, n, n, a)
    ensures var r := ExecuteAll(m, ops).btb; r.misses == (Min(n, 128) + 1) / 2 && r.hits == n - r.misses
  {
    UnitsAreIndependent(m, ops);
    MissesAreChanges(m.btb, Dispatches(n));
    DispatchChanges(n);
  }

  lemma LinesTo(k: nat)
    ensures LineOf(64, 0x30000 + 4 * k) - LineOf(64, PcBase(0)) == 4 * k / 64
  {
  }

  lemma FetchMisses(c: Cache, n: nat)
    requires Empty(c) && c.lineSize == 64 && n > 0
    ensures var r := Accesses(c, Fetches(n)); r.misses == 1 + 40 * (n - 1) / 64 && r.hits == n - r.misses
  {
    CreepingMisses(c, Fetches(n));
    AccessesCounted(c, Fetches(n));
    LinesTo(10 * (n - 1));
  }

  lemma InterpreterData(m: Cpu, ops: seq<Instr>, n: nat, a: nat)
    requires Stock(m) && Shows(ops, n, n, a) && n > 0
    ensures var r := ExecuteAll(m, ops).dcache; r.misses == 1 + 40 * (n - 1) / 64 && r.hits == n - r.misses
  {
    UnitsAreIndependent(m, ops);
    FetchMisses(m.dcache, n);
  }

  lemma PcMisses(c: Cache, pcs: seq<int>, n: nat)
    requires Empty(c) && c.lineSize == 64 && Creeps(pcs, 64) && |pcs| == PER_BYTECODE * n && n > 0
    requires pcs[0] == PcBase(0) && pcs[|pcs| - 1] == PcBase(n)
    ensures var r := Accesses(c, pcs); r.misses == 1 + 40 * n / 64 && r.hits == PER_BYTECODE * n - r.misses
  {
    CreepingMisses(c, pcs);
    AccessesCounted(c, pcs);
    LinesTo(10 * n);
  }

  lemma InterpreterFetch(m: Cpu, n: nat)
    requires Stock(m) && n > 0
    ensures var r := ExecuteAll(m, Workload(n)).icache;
            r.misses == 1 + 40 * n / 64 && r.hits == PER_BYTECODE * n - r.misses
  {
    var pcs := Pcs(Workload(n));
    UnitsAreIndependent(m, Workload(n));
    WorkloadPcsCreep(n);
    PrefixExtends(n - 1, 10);
    PcMisses(m.icache, pcs, n);
  }

  lemma InterpreterBill(r: Cpu, ops: seq<Instr>, n: nat, b: nat, d: nat, f: nat)
    requires Shows(ops, n, n, 9 * n) && r.instructions == PER_BYTECODE * n && r.icache.misses == f
    requires r.btb.misses == b && r.btb.hits == n - b && r.dcache.misses == d && r.dcache.hits == n - d
    ensures Bill(r, ops) == 50.0 * n as real + 11.5 * b as real + 39.0 * d as real + 40.0 * f as real
  {
    assert r.btb.hits as real == n as real - b as real;
    assert r.dcache.hits as real == n as real - d as real;
    assert r.instructions as real == 11.0 * n as real;
    assert CountOf(ops, Arith) as real == 9.0 * n as real;
  }

  /** For every number of bytecodes, the exact counters and the exact clock. */
  lemma InterpreterCounters(m: Cpu, n: nat)
    requires Stock(m) && n > 0
    ensures var r := ExecuteAll(m, Workload(n));
            var b, d, f := (Min(n, 128) + 1) / 2, 1 + 40 * (n - 1) / 64, 1 + 40 * n / 64;
            && r.instructions == 11 * n && r.btb.misses == b && r.dcache.misses == d && r.icache.misses == f
            && r.cycles == 50.0 * n as real + 11.5 * b as real + 39.0 * d as real + 40.0 * f as real
  {
    var ops := Workload(n);
    PrefixShows(n, 0);
    assert Shows(ops, n, n, 9 * n);
    InterpreterBranches(m, ops, n, 9 * n);
    InterpreterData(m, ops, n, 9 * n);
    InterpreterFetch(m, n);
    UnitsAreIndependent(m, ops);
    CyclesAreBilled(m, ops);
    InterpreterBill(ExecuteAll(m, ops), ops, n, (Min(n, 128) + 1) / 2, 1 + 40 * (n - 1) / 64, 1 + 40 * n / 64);
  }
}

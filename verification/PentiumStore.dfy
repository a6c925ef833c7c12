/** The simulated processor as it is stored: cache, branch buffer and clock changed per instruction. */
module PentiumStore {
  import opened Words
  import opened PentiumCache
  import opened Pentium
  import opened AptOs

  class DirectMappedCache {
    const lineSize: nat
    const numLines: nat
    var lines: seq<Option<int>>
    var hits: nat
    var misses: nat

    ghost predicate Valid()
      reads this
    {
      lineSize > 0 && numLines > 0 && |lines| == numLines
    }

    ghost function State(): Cache
      reads this
    {
      Cache(lineSize, lines, hits, misses)
    }

    constructor (sizeKb: nat, lineSize: nat)
      requires 0 < lineSize <= sizeKb * 1024
      ensures Valid() && Empty(State()) && this.lineSize == lineSize && numLines == sizeKb * 1024 / lineSize
    {
      this.lineSize := lineSize;
      numLines := sizeKb * 1024 / lineSize;
      lines := seq(sizeKb * 1024 / lineSize, _ => None);
      hits, misses := 0, 0;
    }

    method Lookup(address: int) returns (hit: bool)
      requires Valid()
      modifies this
      ensures Valid() && State() == Access(old(State()), address)
      ensures hit == Hit(old(State()), address)
    {
      var lineAddress := address / lineSize;
      var index := lineAddress % numLines;
      var tag := lineAddress / numLines;
      hit := lines[index] == Some(tag);
      if hit {
        hits := hits + 1;
      } else {
        lines := lines[index := Some(tag)];
        misses := misses + 1;
      }
    }

    method Reset()
      requires Valid()
      modifies this
      ensures Valid() && Empty(State())
    {
      lines := seq(numLines, _ => None);
      hits, misses := 0, 0;
    }
  }

  class BranchTargetBuffer {
    const entries: nat
    var table: seq<bool>
    var hits: nat
    var misses: nat

    ghost predicate Valid()
      reads this
    {
      entries > 0 && |table| == entries
    }

    ghost function State(): Btb
      reads this
    {
      Btb(table, hits, misses)
    }

    constructor (entries: nat)
      requires entries > 0
      ensures Valid() && AllNotTaken(State()) && this.entries == entries
    {
      this.entries := entries;
      table := seq(entries, _ => false);
      hits, misses := 0, 0;
    }

    method PredictAndUpdate(pc: int, taken: bool) returns (hit: bool)
      requires Valid()
      modifies this
      ensures Valid() && State() == Resolve(old(State()), Branch(pc, taken))
      ensures hit == Foreseen(old(State()), Branch(pc, taken))
    {
      var index := pc / 4 % entries;
      hit := table[index] == taken;
      if hit {
        hits := hits + 1;
      } else {
        table := table[index := taken];
        misses := misses + 1;
      }
    }

    method Reset()
      requires Valid()
      modifies this
      ensures Valid() && AllNotTaken(State())
    {
      table := seq(entries, _ => false);
      hits, misses := 0, 0;
    }
  }

  class PentiumCpu {
    var cycles: real
    var instructions: nat
    const iCache: DirectMappedCache
    const dCache: DirectMappedCache
    const btb: BranchTargetBuffer

    ghost predicate Valid()
      reads this, iCache, dCache, btb
    {
      iCache != dCache && iCache.Valid() && dCache.Valid() && btb.Valid()
    }

    ghost function State(): (m: Cpu)
      requires Valid()
      reads this, iCache, dCache, btb
      ensures CpuOk(m)
    {
      Cpu(cycles, instructions, iCache.State(), dCache.State(), btb.State())
    }

    constructor ()
      ensures Valid() && fresh(iCache) && fresh(dCache) && fresh(btb) && Stock(State())
    {
      iCache := new DirectMappedCache(8, 64);
      dCache := new DirectMappedCache(8, 64);
      btb := new BranchTargetBuffer(256);
      cycles, instructions := 0.0, 0;
    }

    method ResetStats()
      requires Valid()
      modifies this, iCache, dCache, btb
      ensures Valid() && Fresh(State())
    {
      cycles, instructions := 0.0, 0;
      iCache.Reset();
      dCache.Reset();
      btb.Reset();
    }

    method ExecuteOne(op: Instr)
      requires Valid()
      modifies this, iCache, dCache, btb
      ensures Valid() && State() == Execute(old(State()), op)
    {
      instructions := instructions + 1;
      var spent := 4.0;
      if op.kind == Arith {
        spent := spent + 0.5;
      } else if op.kind == MemRead || op.kind == MemWrite {
        var dHit := dCache.Lookup(op.address);
        spent := spent + (if dHit then 1.0 else 40.0);
      } else if op.kind == BranchKind {
        var predicted := btb.PredictAndUpdate(op.pc, op.taken);
        spent := spent + (if predicted then 0.5 else 12.0);
      } else if op.kind == ContextSwitch {
        spent := spent + 150.0;
      } else if op.kind == Syscall {
        spent := spent + 32.0;
      } else {
        spent := spent + 80.0;
      }
      var iHit := iCache.Lookup(op.pc);
      if !iHit {
        spent := spent + 40.0;
      }
      cycles := cycles + spent;
    }

    method ExecuteInstructionBlock(stream: seq<Instr>)
      requires Valid()
      modifies this, iCache, dCache, btb
      ensures Valid() && State() == ExecuteAll(old(State()), stream)
    {
      for k := 0 to |stream|
        invariant Valid() && State() == ExecuteAll(old(State()), stream[..k])
      {
        ExecuteOne(stream[k]);
        assert stream[..k + 1][..k] == stream[..k];
      }
      assert stream[..|stream|] == stream;
    }
  }
}

# Verified models of the Bemi BIOS state machines

This project models the stateful parts of the repository and proves what each of them keeps, computes
and promises: the micro-op interpreter and its peephole optimizer, the translation trace cache, the two
reorder buffers, the x64 code emitter, the 8088 executor, the TAGE branch predictor, the local APIC
shadow, and the counters of the Pentium simulator on a generated instruction stream.

`dafny verify dfyconfig.toml` checks everything.

## How it is organised

Every part that the repository updates in place has two files. One holds the operations as functions on
values, together with the theorems; the other holds a class with the fields the source has, whose methods
loop and assign as the source does. Each method's postcondition equates the new state with the function
of the old one, so every theorem about the functions is a theorem about the methods.

| part | functions and theorems | in-place form |
|---|---|---|
| micro-op IR and interpreter | `Machine`, `StepResults`, `BitResults`, `LoadStore`, `Blocks`, `Branches`, `MultiLimb`, `WideArith`, `BitOps`, `MicroStack` | `Ir`, `Executor` |
| peephole optimizer | `Optimizer` | `Optimizer` (methods) |
| trace cache | `TraceCache`, `TraceEviction`, `TraceScanOrder`, `TraceCacheMap`, `TraceCacheRuns`, `TraceCacheUse`, `TraceMemory`, `TraceMemoryChains` | `TraceCacheStore` |
| reorder buffer, 7 x 112 | `RobQueue`, `RobEntries` | `Rob` |
| compressed reorder buffer | `RobV72`, `RobV72Spills` | `RobV72Store` |
| x64 emitter | `X64` | `CodeBuffer` |
| 8088 machine | `X8088`, `X8088Opcodes`, `X8088Stack` | `X8088Store` |
| TAGE predictor | `Tage`, `TageEntries` | `TageStore` |
| local APIC shadow | `Apic`, `ApicTimer` | `ApicStore` |
| Pentium counters | `PentiumCache`, `Pentium`, `AptOs` | `PentiumStore`, `AptOs` (generator) |

`Words` holds fixed-width words as bounded integers with the wrap-around written out; `Division` holds
the few facts about products and quotients that several modules share, `Bits` those about single bits of a number.

Beside the theorems about invariants, refinement and runs, the interpreter, the trace cache, the reorder buffers,
the 8088, the predictor and the APIC have lemmas that say what one operation does with the numbers written out:
opcode bytes, address bits, register offsets, table sizes, fields.

## Where the code departs from its evident intent

The models do what the code does. Where that is not what its comments or names promise, a lemma says
exactly when the promise holds; the few departures for which there is nothing in the model to compare the
code with are marked as stated only.

* **Optimizer.** A move into the register that drops writes followed by the move back is deleted, although
  the second move loads zero (`Optimizer.HazardousBlock`). Deleting the second move of a pair is sound in
  every context if and only if the pair is not of that form; from one given state, the pass preserves every
  prefix of a block if and only if each such pair finds its register already zero.
* **ADC and SBB** compute CF from the two operands alone. A chain is exact if and only if no limb has to pass
  on a carry that the limb below generated.
* **IDIV** sign-extends the low half of the dividend before joining the halves. For a nonzero divisor the results
  are right if and only if the low half is not negative or the high half is all ones, and the true quotient fits in
  64 bits; or the high half is zero, the low half is 2^63 and the divisor -1, where two mistakes cancel. The least
  128-bit dividend by -1 panics. **DIV** cuts the quotient to 64 bits instead of raising an error when the high half
  is not below the divisor.
* **Trace cache.** The bucket table is the last 512 KB of the region, and the bound the allocator compares with is the
  end of that region, so nodes run into the table before the allocator can start over at slot 0. From an intact
  table an insertion leaves all chains whole if and only if the key is present, or the slot ends below the table,
  or only the new node's link lies in the table, the key does not hash to 0 and both bucket 0 and the key's bucket
  are empty. The last case needs a region size of 48 modulo 64 bytes; in the default 4 MB region 57343 slots are
  clear and the next one always breaks a chain; 57343 insertions into a fresh region lead there. A new node whose
  valid byte lies in the table breaks one from any state. Over every run of insertions, lookups and pins some chain
  then stays broken until the allocator reaches its own bound, and even if nodes are invalidated in between, every
  further insertion of a new node leaves a broken chain. Invalidation does not lower the entry count, which therefore exceeds the valid nodes by exactly the nodes
  that invalidations dropped.
* **Compressed reorder buffer.** A spill hands out the tag of the main ring's oldest entry and overwrites the metadata
  that lead to it. That entry can then never be finished: the main ring stays full for ever, and every later
  allocation spills a tag in use, or stalls. 1568 allocations in a row fill the main ring, so this is reached. An
  allocation stalls if and only if the main ring and all seven extension rings are full. After every run from initialisation, an allocation that succeeds returns
  a fresh tag if and only if the main ring has room.
* **Emitter.** Push and pop test the three-bit code where the four-bit number is meant, so R8 to R15 come out
  as RAX to RDI. A stream decodes to itself if and only if no push or pop names them (and only architectural
  registers are used); a byte beyond 4096 is dropped without notice, so the buffer decodes to the stream if and only
  if in addition the stream fits. rel32 reaches its target if and only if the displacement fits in 32 signed bits.
* **APIC.** A pending request is moved into service even when a higher vector is in service, contrary to section
  10.8.4 of the Intel SDM Vol. 3A: taking an interrupt and ending one restores the in-service set if and only
  if the vector taken is above everything in service. Masking the timer entry
  does not stop a timer: some later run still fires if and only if the timer was running and the new vector is at least 16.
* **TAGE.** A branch that matches no entry and finds none to allocate is predicted taken for ever, so a not-taken
  branch is learned if and only if some entry matches it or can be allocated. Entry and tag tell all branches apart
  in tables 0 and 1 only: in table 2 two branches are taken for one another if and only if they differ alike on bits 8
  and 22 and on 9 and 23 and nowhere else, in table 3 if and only if they differ alike on each of bits 8 to 11 and the
  bit 18 above, on bits 12 and 13 in any way, and nowhere else. Eight updates of four other branches,
  from an unused predictor, make one unlearnable. What is learned is kept among any branches that share no table
  entry and no target-buffer entry with the branch.
* **8088.** The decoder's comment promises `None` for unrecognised bytes; the code steps over exactly the bytes it
  does not name (`X8088.UnnamedIsSkipped`). MOV of a byte writes the whole register of that number, which is right if
  and only if the condition of `X8088.ByteMoveExact` on the old registers holds. Conditional jumps are always taken,
  whatever the flags (`X8088Opcodes.ShortJumpStep`), and a far jump clears CS (`X8088Opcodes.FarJumpStep`): stated
  only, as FLAGS is no part of the model.
  The DOS string service never comes back if and only if memory holds no terminator byte anywhere.
* **Conditional moves and sets** of the interpreter test whether any flag is set, whatever their condition
  (`StepResults.MoveResults`), and **CmpxchgRR** compares with a register, not with memory: stated only.

## Modelling decisions

* The interpreter's memory callbacks may keep state, so what a read returns is an arbitrary function of the
  whole history of calls. Equal outcomes therefore include equal call traces. Only the stack theorems assume
  that the callbacks behave as memory: a full write is read back until something within eight bytes is written.
  A Rust arithmetic panic is an outcome of its own.
* The interpreter's match is spread over seven methods by instruction group.
* The trace cache is modelled twice. `TraceCache` holds buckets and nodes as values, with arena indexes for pointers;
  its capacity is the number of slots that end below the bucket table. `TraceMemory` lays them out in one region of
  64-bit words, with the source's field offsets (a node is 64 bytes, the header 56), and decodes pointers; a word
  that is neither null nor the address of a written node is wild. Base address and size are parameters, both
  multiples of 8 as the pointer types demand. Bucket count and entry limit are the source's, as are the
  reorder-buffer sizes.
* The decoder of the emitter's round trip accepts what the emitter can produce and, besides, push and pop of the
  upper eight registers.
* The scan `31 - AsmMsb32(x)` is taken to be the index of the highest set bit, as the APIC source's comments say;
  `AsmMsb32` itself is not part of this model.
* Cycle counts, which the simulator keeps in floating point, are real numbers; all of them are multiples of one half.

## Model

| member | source | states |
|---|---|---|
| Ir.TranslationBlock.constructor | dbt/ir.rs:162-178 | a new block holds no micro-ops |
| Ir.TranslationBlock.Push | dbt/ir.rs:180-189 | appends while fewer than 256 are held; otherwise refuses and changes nothing |
| Ir.TranslationBlock.Remove | dbt/ir.rs:207-215 | takes exactly the element at the index out and keeps the order; out of range it does nothing |
| Executor.RegisterFile.Read | dbt/executor/mod.rs:17-22 | the register's value, and zero for the none register |
| Executor.RegisterFile.Write | dbt/executor/mod.rs:24-28 | changes that register only, and nothing for the none register |
| Executor.RegisterFile.UpdateFlagsArith | dbt/executor/mod.rs:40-57 | the flags register becomes the zero, sign, carry and overflow bits of the operation and no other register changes |
| Executor.RegisterFile.UpdateFlagsLogic | dbt/executor/mod.rs:59-65 | the flags register becomes zero and sign with carry and overflow clear |
| Executor.Executor.ExecuteMove | dbt/executor/mod.rs:107-617 | moves, extensions, address computation, conditional moves and exchange have the effect the machine model gives them |
| Executor.Executor.ExecuteMemory | dbt/executor/mod.rs:116-467 | loads and stores issue exactly one callback invocation, with the right address, width and value |
| Executor.Executor.ExecuteArith | dbt/executor/mod.rs:143-640 | additions, subtractions, comparisons and their carry forms: the new register file is the machine model's |
| Executor.Executor.ExecuteWide | dbt/executor/mod.rs:193-610 | multiplications, divisions and sign extension: registers and Ok, Err or panic are the machine model's |
| Executor.Executor.ExecuteLogic | dbt/executor/mod.rs:269-363 | logic, test and shift operations: the new register file is the machine model's |
| Executor.Executor.ExecuteBits | dbt/executor/mod.rs:307-441 | rotations, bit tests, bit scans and population count: the new register file is the machine model's |
| Executor.Executor.ExecuteControl | dbt/executor/mod.rs:496-587 | pushes, pops, jumps, calls and returns: registers, callback trace and successor address are the machine model's |
| Executor.Executor.ExecuteInst | dbt/executor/mod.rs:103-654 | every opcode has exactly the outcome of the machine's step function, so theorems about runs hold of the interpreter |
| Executor.Executor.ExecuteBlock | dbt/executor/mod.rs:85-101 | the loop over a block, with its early exits and errors, has exactly the outcome of the machine's run function |
| StepResults.MoveResults | dbt/executor/mod.rs:107-617 | what MovRR, MovRI, LeaRR, Cmovcc, Setcc and XchgRR leave in every register; the two conditional ones look only at whether any flag is set |
| StepResults.SignFillResult | dbt/executor/mod.rs:603-610 | Cdq and Cqo fill RDX with the sign of RAX and touch nothing else |
| StepResults.IdleResult | dbt/executor/mod.rs:642-650 | the operations that do nothing leave registers, memory trace and successor address alone |
| StepResults.SumResults | dbt/executor/mod.rs:143-183 | AddRR, AddRI and AdcRR: the sum modulo 2^64 in the destination only; carry, zero, sign and overflow by their meaning, each in its bit, and every other flag bit clear |
| StepResults.DifferenceResults | dbt/executor/mod.rs:159-191 | the same of SubRR, SubRI and SbbRR |
| StepResults.CompareResults | dbt/executor/mod.rs:255-267 | comparisons set the flags of the difference and nothing else |
| StepResults.NegateResults | dbt/executor/mod.rs:312-317 | negation: zero minus the operand, with the flags of that difference |
| StepResults.ExchangeAddResults | dbt/executor/mod.rs:633-640 | the sum goes to the first operand, the old first operand to the second, also if both are one register |
| StepResults.LogicResults | dbt/executor/mod.rs:269-363 | logic operations and shifts leave the result with zero and sign by their meaning and carry and overflow clear; tests leave the flags only |
| BitResults.ExtendResults | dbt/executor/mod.rs:469-494 | the destination of a sign or zero extension agrees with the operand on 8, 16 or 32 bits and lies in the signed or unsigned range; every other register is kept |
| BitResults.RotationResults | dbt/executor/mod.rs:307-389 | complement and rotations write the destination and keep every other register, the flags included |
| BitResults.BitTestResults | dbt/executor/mod.rs:391-409 | the four bit tests: the tested bit goes to bit 0 of the flags, the written register differs in that bit only, everything else is kept |
| BitResults.ScanResults | dbt/executor/mod.rs:411-433 | ZF says whether the operand of a bit scan is zero, and then the destination is kept; every other flag bit and register is kept |
| BitResults.CountResults | dbt/executor/mod.rs:435-441 | POPCNT: ZF says whether the operand is zero; every other flag bit and register is kept |
| BitResults.CompareExchangeResults | dbt/executor/mod.rs:619-631 | both outcomes of CmpxchgRR: which register is written with what, and ZF; every other flag bit and register is kept |
| BitResults.MultiplyResults | dbt/executor/mod.rs:193-203 | RDX:RAX is the full product, CF and OF are set iff it needs RDX, every other flag bit and register is kept |
| BitResults.SignedMultiplyResults | dbt/executor/mod.rs:205-225 | the signed product modulo 2^64; CF and OF are set iff it does not fit; every other flag bit and register is kept |
| LoadStore.LoadResult | dbt/executor/mod.rs:116-458 | a load adds exactly one read to the trace, at (register + displacement) or (register + register) modulo 2^64, of 8 bytes iff the operand size is 8, and puts the answer in the destination only |
| LoadStore.StoreResult | dbt/executor/mod.rs:126-467 | a store adds exactly one write, with that address and width and the source register, or for MovMI its number, and changes no register |
| LoadStore.StoreThenLoad | dbt/executor/mod.rs:116-467 | with callbacks that behave as memory, a full-width load at the address of a full-width store gives the value back, and a store at least eight bytes away does not disturb it |
| LoadStore.VarsRefine | dbt/executor/mod.rs:85-467 | every block of full-width loads and stores at any set of addresses at least eight bytes apart, mixed with moves, arithmetic and logic, runs as assignments to variables |
| Blocks.RunReached | dbt/executor/mod.rs:85-101 | nothing behind the first jump, call, return, trace exit or halt of a block has any effect |
| Blocks.RunConcat | dbt/executor/mod.rs:85-101 | a block that does not leave runs into what follows it, errors and panics ending the run where they occur |
| Blocks.JumpResults | dbt/executor/mod.rs:515-524 | relative jumps count from the address in RAX, absolute ones go to the register; no register and no memory changes |
| Blocks.PushResults | dbt/executor/mod.rs:496-503 | RSP drops by eight modulo 2^64 and one write of eight bytes stores there the register as it was before |
| Blocks.CallResults | dbt/executor/mod.rs:557-577 | a call pushes the address in RAX; an absolute call reads its target after RSP was lowered |
| Blocks.PopResults | dbt/executor/mod.rs:505-587 | pop and return make one read of eight bytes at RSP and raise it by eight; a pop then writes its destination, RSP included |
| Optimizer.EliminateDead | dbt/optimizer.rs:5-13 | the first in-place loop terminates and leaves the block without Nops and self-moves, otherwise unchanged in order |
| Optimizer.EliminateUndone | dbt/optimizer.rs:16-29 | the second in-place loop terminates, never underflows its bound, and leaves what the pair-dropping function gives |
| Optimizer.OptimizeBlock | dbt/optimizer.rs:3-30 | the whole in-place pass computes the function the theorems are about |
| Optimizer.OptimizePreservesMeaning | dbt/optimizer.rs:3-30 | for every block that shows the second pass no hazardous pair, every register file, callback behaviour and history: same Ok/Err, successor address, registers and memory trace before and after |
| Optimizer.RemovalSoundIffNoHazard | dbt/optimizer.rs:21-25 | deleting the second move of a pair preserves every continuation from every state iff the pair is not through the none register |
| Optimizer.SecondPassExact | dbt/optimizer.rs:16-29 | from a given state the pass preserves every prefix of the block iff every hazardous pair it deletes finds its register zero |
| Optimizer.HarmShows | dbt/optimizer.rs:16-29 | a pair that does not is visible at the end of some prefix, which is produced |
| Optimizer.DropDeadPreserves | dbt/optimizer.rs:5-13 | the first pass preserves every run without any condition |
| Optimizer.DropUndonePreserves | dbt/optimizer.rs:16-29 | the second pass preserves every run along which deleted hazardous pairs are harmless |
| Optimizer.OptimizeNormalizes | dbt/optimizer.rs:3-30 | the result is an order-preserving subsequence in normal form (no Nop, self-move or adjacent inverse pair); fixed points are exactly the normal forms; the pass is idempotent |
| Optimizer.HazardousBlock | dbt/optimizer.rs:21-25 | a concrete two-move block whose meaning the optimizer changes whenever RAX is not zero |
| Branches.CompareFlags | dbt/executor/mod.rs:40-57 | after a comparison CF, ZF, SF and OF hold iff unsigned below, equal, negative wrapped difference, and signed overflow |
| Branches.TakenIffRelation | dbt/executor/mod.rs:526-550 | each of the fourteen condition codes the code handles is taken iff the relation it names holds between the operands; the two for parity, and any other code, never are |
| Branches.CompareAndBranch | dbt/executor/mod.rs:255-267 | compare then jump sets the successor address iff the relation holds, and changes nothing but flags |
| MultiLimb.ChainExact | dbt/executor/mod.rs:143-191 | for every chain of limbs the destinations and final CF denote the exact sum or difference iff no limb must pass on a generated carry |
| MultiLimb.DigitsExact | dbt/executor/mod.rs:40-57 | the digits the machine leaves denote the true total iff no limb loses a carry, for any carry in |
| MultiLimb.CarryOpsRun | dbt/executor/mod.rs:175-191 | running any list of AdcRR or SbbRR leaves those digits in the destinations, the carry in CF, and every other register and memory alone |
| MultiLimb.LostCarryIsWrong | dbt/executor/mod.rs:175-191 | a limb that swallows a carry makes the whole result wrong, whatever the higher limbs are |
| WideArith.MultiplyDivideInvert | dbt/executor/mod.rs:193-239 | MulRR then DivRR by a register other than RAX, RDX and the flags restores RAX with RDX zero, and errs iff the register is zero |
| WideArith.DivideEuclid | dbt/executor/mod.rs:227-239 | the remainder is always right and below the divisor; quotient and remainder satisfy the division identity iff RDX is below the divisor |
| WideArith.SignExtendDivide | dbt/executor/mod.rs:241-253 | Cqo then IdivRR truncates toward zero iff it is not the most negative number by -1; the remainder is right always; a zero divisor errs |
| WideArith.SignedDivideExact | dbt/executor/mod.rs:241-253 | for every dividend and divisor: errs iff the divisor is zero, panics iff the least dividend is divided by -1, and otherwise leaves the truncated quotient and remainder of RDX:RAX iff the listed condition on the halves holds |
| WideArith.TruncDivTruncates | dbt/executor/mod.rs:241-253 | the quotient and remainder used satisfy the identity, with a remainder smaller than the divisor and of the dividend's sign |
| BitOps.BitwiseResult | dbt/executor/mod.rs:283-409 | every bit of the result of and, or, xor, not, shifts, rotations and bit set, reset and complement, in terms of the operand's bits; the rotations through carry rotate the register alone |
| BitOps.BitTestCarry | dbt/executor/mod.rs:391-409 | a bit test copies exactly the tested bit into CF and keeps every other flag bit |
| BitOps.IncDecKeepCarry | dbt/executor/mod.rs:319-339 | a step of IncR or DecR changes the destination by one, leaves other registers and memory alone, and sets all flags as adding or subtracting one would, except that CF keeps its value |
| BitOps.ScansAndCounts | dbt/executor/mod.rs:411-441 | BSF and BSR give the lowest and highest set bit, POPCNT the number of set bits |
| BitOps.ExtensionIsExact | dbt/executor/mod.rs:469-494 | the extension is the one value with the operand's low part in the signed or unsigned range |
| BitOps.MultiplyFlags | dbt/executor/mod.rs:193-203 | CF and OF are set iff the product needs its high half |
| BitOps.SignedMultiplyExact | dbt/executor/mod.rs:205-225 | the result is the true signed product iff CF and OF are clear, and is right modulo 2^64 always |
| MicroStack.StepRefines | dbt/executor/mod.rs:496-587 | with callbacks that behave as memory, each push, pop, call and return is the list operation, successor address included, for every stack pointer and across its wrap |
| MicroStack.RunRefines | dbt/executor/mod.rs:496-513 | every block of pushes and pops within its words runs as the list stack, all registers included |
| MicroStack.CallReturns | dbt/executor/mod.rs:557-587 | a balanced callee, with pushes, pops, calls and returns nested to any depth and any operations that leave memory and the stack pointer alone, returns to the address RAX had at the call with the caller's stack pointer and words |
| MicroStack.ExchangeThroughStack | dbt/executor/mod.rs:496-513 | pushing two registers and popping them in the same order exchanges them and changes nothing else |
| MicroStack.MemoryExists | dbt/executor/mod.rs:70-74 | the assumption on the callbacks can be met |
| TraceCache.ChainHolds | performance/tcache/tracecache.c:128-142 | a chain ends, is strictly decreasing so visits no node twice, and holds exactly its bucket's nodes |
| TraceCache.LocateIsMapLookup | performance/tcache/tracecache.c:128-142 | the chain walk finds the abstract map's node, and none iff the map lacks the key |
| TraceEviction.VictimSpec | performance/tcache/tracecache.c:148-180 | the victim is valid, unpinned and least in counter among the first scan-depth eligible nodes of the ring; none iff nothing is eligible or the depth is zero; global minimum if the depth covers all |
| TraceEviction.WholeRing | performance/tcache/tracecache.c:159-173 | the ring scan lists every valid unpinned node exactly once |
| TraceEviction.ScanKnows | performance/tcache/tracecache.c:163-172 | wherever the scan stops its candidate has the least counter of those met |
| TraceScanOrder.VictimExactly | performance/tcache/tracecache.c:148-180 | the victim is the one node looked at with the least counter, the first met among equals; there is none iff none is looked at |
| TraceScanOrder.LooksAtTaken | performance/tcache/tracecache.c:154-173 | a valid unpinned node is looked at iff fewer valid unpinned ones than the scan depth come before it, going round all 65536 buckets from the low 16 bits of the clock, newest first in each |
| TraceScanOrder.DepthTakesEffect | performance/tcache/tracecache.c:86-92 | configuring a depth changes how many nodes the scan looks at and nothing else |
| TraceCacheMap.LookupSpec | performance/tcache/tracecache.c:118-146 | returns the map's node or none iff the key is absent, and leaves the map unchanged |
| TraceCacheMap.InsertSpec | performance/tcache/tracecache.c:182-233 | with the key present or a slot clear of the table: the map gains exactly the key and loses at most the victim's key, and only at the entry limit; the count moves with the valid nodes |
| TraceCacheMap.PinSpec | performance/tcache/tracecache.c:235-257 | the pin count of the key's node goes up, or down but not below zero; every other node and the map are unchanged |
| TraceCacheMap.WithRoomSpec | performance/tcache/tracecache.c:203-205 | eviction removes exactly the victim's key and lowers the count with it |
| TraceCacheMap.InvalidateSpec | performance/tcache/tracecache.c:259-279 | exactly the keys with the address disappear, in every context; the entry count exceeds the valid nodes by exactly as many more as are dropped |
| TraceCacheRuns.ApplyKeepsInv | performance/tcache/tracecache.c:105-279 | every operation that stays clear of the bucket table keeps exact chains and one valid node per key, and moves the count's distance from the valid nodes by exactly what an invalidation drops |
| TraceCacheRuns.ReachableAgrees | performance/tcache/tracecache.c:105-146 | in every state reachable with all nodes clear of the bucket table all chains are exact and a lookup agrees with the map |
| TraceCacheRuns.FewInsertionsStayClear | performance/tcache/tracecache.c:207-213 | as many insertions as slots below the table are always clear of it |
| TraceCacheRuns.EntryCountExact | performance/tcache/tracecache.c:177-279 | over every run clear of the table the entry count is the valid nodes plus the nodes invalidations dropped, so it is exact iff none was dropped |
| TraceCacheRuns.InvChainsExact | performance/tcache/tracecache.c:141-141 | following the links from a bucket ends and meets exactly its nodes, once each |
| TraceMemory.LinkClear | performance/tcache/tracecache.c:207-229 | storing a node word by word in a slot below the table is the abstract insertion: every other node and bucket reads as before |
| TraceMemory.WrapComesLate | performance/tcache/tracecache.c:208-210 | with an intact table the allocator's bound is never reached |
| TraceMemory.CountsView | performance/tcache/tracecache.c:133-133 | writing the word with execution and pin count changes those two fields of that node only |
| TraceMemory.StampView | performance/tcache/tracecache.c:134-137 | writing the word with hint and stamp changes those two fields of that node only |
| TraceMemory.InvalidView | performance/tcache/tracecache.c:176-176 | clearing the valid byte changes only that flag of that node |
| TraceMemoryChains.InsertClear | performance/tcache/tracecache.c:182-233 | with the key present or the slot clear of the table, the insertion into memory is the abstract one and the table stays intact |
| TraceMemoryChains.InsertKeepsChainsIff | performance/tcache/tracecache.c:182-233 | from every intact table an insertion leaves all chains whole iff the key is present, the slot ends below the table, or the one harmless overlap occurs |
| TraceMemoryChains.DefaultRegionBreaks | performance/tcache/tracecache.c:55-73 | in the default region 57343 slots are clear, and the insertion that takes the next one breaks a chain whatever its key |
| TraceMemoryChains.FlagBreaks | performance/tcache/tracecache.c:212-227 | from any state, a new node whose valid byte lies in the table leaves the chain of the bucket there broken |
| TraceMemoryChains.DefaultRegionReached | performance/tcache/tracecache.c:49-233 | from every fresh region of the default size 57343 insertions keep the table intact, and the next one breaks a chain |
| TraceMemoryChains.BrokenFromFirstOverlap | performance/tcache/tracecache.c:118-257 | over every run of insertions, lookups and pins that invalidates nothing, from the first node whose valid byte lies in the table on some chain is broken in every state, until the allocator reaches its own bound |
| TraceMemoryChains.LaterLinksBreak | performance/tcache/tracecache.c:118-279 | from there on, whatever hits, pins, evictions and invalidations store in between, every insertion of a new node leaves some chain broken, until the allocator reaches its own bound |
| TraceCacheRuns.LookupStamps | performance/tcache/tracecache.c:133-134 | a lookup gives exactly the node it finds the clock's stamp and advances the clock, and does neither if it finds none |
| TraceCacheRuns.InsertStamps | performance/tcache/tracecache.c:195-229 | an insertion stamps exactly the node it returns, whether it finds, evicts or links |
| TraceCacheRuns.UseIsNewest | performance/tcache/tracecache.c:118-279 | every operation stamps exactly the node it uses |
| TraceCacheRuns.StampsAreLastUses | performance/tcache/tracecache.c:133-134 | over every run with at most 2^32 uses each node's stamp is the position of its last use in the run |
| TraceCacheRuns.VictimIsLeastRecent | performance/tcache/tracecache.c:164-168 | over every such run, with a depth that covers all eligible nodes, every eligible node but the victim was last used strictly later |
| TraceCacheUse.InsertedStays | performance/tcache/tracecache.c:182-279 | over every run from the empty cache with at most 131072 insertions, clear of the table, a lookup finds a key iff it has been inserted and its address not been invalidated since |
| TraceCacheUse.InsertEvictsOne | performance/tcache/tracecache.c:203-205 | at 131072 entries or more, with a nonzero depth and a valid unpinned node, inserting a new key removes exactly one other key |
| TraceCacheUse.InsertFills | performance/tcache/tracecache.c:207-231 | a new key takes the next slot, in front of its chain, with every field of the new node as stated; after room is made nothing else changes |
| TraceCacheUse.RoomMade | performance/tcache/tracecache.c:175-205 | below 131072 entries nothing is evicted; from there on the victim is marked invalid and counted off, and nothing else |
| TraceCacheUse.InsertStampsOnly | performance/tcache/tracecache.c:192-201 | inserting a key that is held stamps its node with the low 32 bits of the clock and changes nothing else |
| TraceCacheUse.LookupCounts | performance/tcache/tracecache.c:129-142 | a lookup that finds a node counts it, stamps it and from a count of 101 on sets the hint; no other field or node changes |
| TraceCacheUse.CountsAreHits | performance/tcache/tracecache.c:129-142 | over every run from the empty cache clear of the table, a node's execution count is one more than the lookups and pins that found it, modulo 2^32, and its hint is set iff they are at least 100 |
| TraceCacheUse.HashBits | performance/tcache/tracecache.c:105-116 | bit k of the bucket number is the exclusive or of bits k, k+16, k+32 and k+48 of the address combined with the context shifted up by seven |
| TraceCacheStore.TraceCacheHeader.constructor | performance/tcache/tracecache.c:49-79 | whatever the region held, the initial cache has empty buckets and no node, and memory below the table is as before; the region is fresh in the sense of the reachability lemma |
| TraceCacheStore.TraceCacheHeader.ConfigureV71 | performance/tcache/tracecache.c:81-103 | only the scan depth changes, to 128 |
| TraceCacheStore.TraceCacheHeader.Walk | performance/tcache/tracecache.c:129-142 | the walking loop terminates on every valid cache and returns the model's node |
| TraceCacheStore.TraceCacheHeader.LookupEntry | performance/tcache/tracecache.c:118-146 | result and new state are the lookup function's |
| TraceCacheStore.TraceCacheHeader.ScanRing | performance/tcache/tracecache.c:154-173 | the two nested scanning loops choose the model's victim |
| TraceCacheStore.TraceCacheHeader.EvictLru | performance/tcache/tracecache.c:148-180 | the victim's valid byte is cleared and the count lowered, and nothing else in memory changes |
| TraceCacheStore.TraceCacheHeader.ScanChain | performance/tcache/tracecache.c:162-172 | scanning one chain takes the scan state over exactly that chain's eligible nodes, up to the depth |
| TraceCacheStore.TraceCacheHeader.LinkEntry | performance/tcache/tracecache.c:207-229 | from any state: the slot is the allocator's, its words and the bucket's are stored in the source's order, wherever they lie, and every other word is kept |
| TraceCacheStore.TraceCacheHeader.FillEntry | performance/tcache/tracecache.c:215-224 | stores the seven field words of a node, keeping the padding beside the valid byte |
| TraceCacheStore.TraceCacheHeader.LinkUp | performance/tcache/tracecache.c:226-227 | the link takes the bucket's word as it is by then, and the bucket the node's address |
| TraceCacheStore.TraceCacheHeader.InsertEntry | performance/tcache/tracecache.c:182-233 | result and whole region are the insertion's, below the table and in it; with room the result is the abstract one and the cache stays valid |
| TraceCacheStore.TraceCacheHeader.PinEntry | performance/tcache/tracecache.c:235-245 | new state is the pin function's |
| TraceCacheStore.TraceCacheHeader.UnpinEntry | performance/tcache/tracecache.c:247-257 | new state is the unpin function's |
| TraceCacheStore.TraceCacheHeader.InvalidateRip | performance/tcache/tracecache.c:259-279 | walking all chains drops exactly the nodes with the address |
| RobQueue.FirstRoom | performance/rob/robdistributor.c:150-162 | the cyclic search ends; it fails iff every bank is full and otherwise every bank it passed is full |
| RobQueue.AllocateSpec | performance/rob/robdistributor.c:139-192 | the handle was unused and now carries the caller's data, in the first bank with room; every other slot is untouched; a stall iff all are full |
| RobQueue.RetireSpec | performance/rob/robdistributor.c:194-223 | succeeds iff the handle is in flight; then it is not, and every other handle in flight keeps its entry |
| RobQueue.ReleasedIsSuffix | performance/rob/robdistributor.c:216-220 | what is released is exactly the longest finished part at the front |
| RobQueue.ApplyLiveSet | performance/rob/robdistributor.c:139-223 | each step adds one fresh handle to the set in flight, removes exactly the retired one, or leaves it |
| RobQueue.ReachableConserves | performance/rob/robdistributor.c:186-214 | in every reachable state allocations minus retirements, as 64-bit counters, is the number in flight |
| RobQueue.LiveHandleKept | performance/rob/robdistributor.c:139-223 | a handle in flight keeps its entry, Rip included, through every run that does not retire it |
| RobQueue.ReleasesInOrder | performance/rob/robdistributor.c:216-220 | over every run a bank's entries leave in allocation order: the queue is the allocation log without its first elements |
| RobQueue.RetireAllEmptiesBanks | performance/rob/robdistributor.c:194-223 | retiring all handles in flight in any order empties every bank |
| RobQueue.StallsIffFull | performance/rob/robdistributor.c:164-167 | allocation fails iff the active count is 784 |
| RobEntries.AllocateResults | performance/rob/robdistributor.c:169-192 | if some bank holds fewer than 112 entries: the new entry holds address, start, count and clock as given, field by field, in the slot behind the last of its bank, the handle names it, and the search starts in the following bank next time |
| RobEntries.StallResults | performance/rob/robdistributor.c:164-167 | with 112 entries in all seven banks nothing changes but the stall counter |
| RobEntries.RecordsKept | performance/rob/robdistributor.c:139-223 | over every run that does not retire it, a handle stands for the address, start, count and tick it was allocated with |
| RobEntries.LiveOrigin | performance/rob/robdistributor.c:139-223 | after every run from the empty distributor, a handle in flight was returned by some allocation of the run and not retired since, and its entry records that allocation, field by field |
| RobEntries.RetireBehind | performance/rob/robdistributor.c:205-214 | retiring an entry behind an unfinished one marks it with the tick and changes nothing else in any bank position |
| RobEntries.RetireOldest | performance/rob/robdistributor.c:205-220 | retiring the oldest entry releases exactly it and the finished ones right behind it |
| RobEntries.RetireTouches | performance/rob/robdistributor.c:205-223 | a retirement changes its own bank and the retirement counter only |
| RobEntries.RetireRefused | performance/rob/robdistributor.c:201-210 | invalid parameter for a handle out of range, not ready for a slot without an entry in flight; nothing changes |
| RobEntries.ClockCountsTicks | performance/rob/robdistributor.c:225-233 | over every run the clock is the number of ticks, modulo 2^64 |
| Rob.RobDistributor.constructor | performance/rob/robdistributor.c:111-137 | the initial distributor is seven empty queues |
| Rob.RobDistributor.FindRoom | performance/rob/robdistributor.c:150-162 | the do-while loop terminates and finds the first bank with room |
| Rob.RobDistributor.AllocateEntry | performance/rob/robdistributor.c:139-192 | heads, tails, counts and slots represent the queues after the abstract allocation, with the same handle or stall |
| Rob.RobDistributor.Release | performance/rob/robdistributor.c:216-220 | the popping loop leaves the representation of the released queue and no other bank changes |
| Rob.RobDistributor.RetireEntry | performance/rob/robdistributor.c:194-223 | status and represented queues are those of the abstract retirement, for every bank and slot number |
| Rob.RobDistributor.RobTick | performance/rob/robdistributor.c:225-233 | the clock advances, modulo 2^64, and nothing else |
| Rob.RobDistributor.GetActiveCount | performance/rob/robdistributor.c:251-262 | the sum of the queue lengths |
| RobV72.Apply72KeepsInv | performance/rob/robdistributor.c:357-487 | every step, spilling or not, keeps all rings well formed with an unfinished front and metadata in range |
| RobV72.CountersAgree | performance/rob/robdistributor.c:376-474 | the counters kept twice agree in every reachable state |
| RobV72.AllocateUnspilled | performance/rob/robdistributor.c:370-392 | with room in the main ring the tag is the slot, was not live, and the queue gains the entry at its end |
| RobV72.RetireUnspilled | performance/rob/robdistributor.c:447-458 | retiring any tag finishes that entry and releases the front of the queue, and does nothing for a dead tag |
| RobV72.LiveTagsAreSlots | performance/rob/robdistributor.c:371-383 | without spills the live tags are the slots of the window and no two entries share one |
| RobV72.RunRefinesFifo | performance/rob/robdistributor.c:357-479 | every run from initialisation that never spills is a run of one first-in first-out queue of 1568, with distinct live tags |
| RobV72.FreshTagIffNoSpill | performance/rob/robdistributor.c:357-435 | after every run from initialisation an allocation that succeeds returns a tag no unreleased entry of any ring carries iff the main ring has room |
| RobV72.FirstExt | performance/rob/robdistributor.c:395-407 | the cyclic search finds the first extension ring with room, and none iff all seven are full |
| RobV72.StallsIffAllFull | performance/rob/robdistributor.c:357-412 | an allocation stalls iff the main ring and all seven extension rings are full, and then only the stall counter changes |
| RobV72.SpillReached | performance/rob/robdistributor.c:370-392 | as many allocations in a row as the main ring has entries fill it, so the next one spills |
| RobV72.FirstSpillSticks | performance/rob/robdistributor.c:394-429 | the first spill hands out the oldest entry's tag and leaves no metadata that lead to it |
| RobV72.StuckStays | performance/rob/robdistributor.c:357-479 | no step, whatever it allocates or retires, undoes that |
| RobV72.SpillIsForEver | performance/rob/robdistributor.c:357-479 | once a run has spilled, the main ring stays full with the same oldest entry and every tag in use |
| RobV72Spills.MainResults | performance/rob/robdistributor.c:370-392 | with fewer than 1568 entries in the main ring: its next slot takes the tag, and the metadata under the tag record the caller's data, that ring and that slot |
| RobV72Spills.SpillResults | performance/rob/robdistributor.c:394-435 | with 1568: the first extension ring in cyclic order with fewer than 9362 entries takes the tag, the metadata lead there, and the other rings stay |
| RobV72Spills.RetireSpilled | performance/rob/robdistributor.c:459-474 | retiring a tag whose metadata name an extension ring finishes exactly that slot, frees exactly the finished front of that ring and changes no other ring |
| RobV72Spills.RetireMain | performance/rob/robdistributor.c:447-458 | the same for the main ring |
| RobV72Spills.RetireRefused | performance/rob/robdistributor.c:440-465 | a tag out of range or an empty ring: the status says which, and nothing changes |
| RobV72Spills.SpillThenRetire | performance/rob/robdistributor.c:394-474 | with empty extension rings, retiring the tag of a spill empties its ring again and leaves the main ring as it was |
| RobV72Store.RingBuffer.PushTag | performance/rob/robdistributor.c:371-376 | the ring gains the tag at its tail |
| RobV72Store.RingBuffer.RetireSlot | performance/rob/robdistributor.c:449-458 | the slot is finished, the front is freed, and the number freed is the drop in the count |
| RobV72Store.V72Distributor.constructor | performance/rob/robdistributor.c:308-355 | the initial structure is empty rings, zero metadata and zero counters, in separate memory |
| RobV72Store.V72Distributor.FindExt | performance/rob/robdistributor.c:395-407 | the do-while loop terminates and finds the first extension ring with room in cyclic order, or none iff all are full |
| RobV72Store.V72Distributor.AllocateEntry | performance/rob/robdistributor.c:357-435 | tag and new state are the abstract allocation's, for main ring, spill and stall |
| RobV72Store.V72Distributor.RetireEntry | performance/rob/robdistributor.c:437-479 | status and new state are the abstract retirement's, for every tag |
| RobV72Store.V72Distributor.Tick | performance/rob/robdistributor.c:481-487 | only the clock advances |
| X64.DecodeEncode | dbt/codegen/mod.rs:68-197 | decoding an emitted instruction, whatever follows, gives back its expressible form and its exact length |
| X64.EncodeDecode | dbt/codegen/mod.rs:48-56 | what decodes is emitted as exactly the bytes consumed if it is encodable, and as fewer bytes if it is not |
| X64.EncodableIsExpressible | dbt/codegen/mod.rs:158-169 | an instruction survives unchanged iff its registers are architectural and a push or pop names one of the low eight |
| X64.DecodeEncodeAll | dbt/codegen/mod.rs:68-197 | decoding any emitted stream returns its instructions in order |
| X64.StreamExact | dbt/codegen/mod.rs:68-197 | a stream comes back unchanged iff every instruction is encodable |
| X64.EncodeDecodeAll | dbt/codegen/mod.rs:68-197 | a byte string that decodes is the emission of what it decodes to iff all of that is encodable |
| X64.EmittedDecodesEncodable | dbt/codegen/mod.rs:158-169 | what an emitted stream decodes to never pushes or pops an upper register |
| X64.RelativeTarget | dbt/codegen/mod.rs:58-61 | the decoded target is the one asked for iff the displacement fits in 32 signed bits |
| CodeBuffer.Buffer.EmitU8 | dbt/codegen/mod.rs:34-36 | appends one byte, or drops it when 4096 are held |
| CodeBuffer.Buffer.EmitU32 | dbt/codegen/mod.rs:38-41 | appends four bytes, least significant first, as far as they fit |
| CodeBuffer.Buffer.EmitRex | dbt/codegen/mod.rs:48-52 | appends the prefix, and nothing when no bit is set |
| CodeBuffer.Buffer.EmitModRm | dbt/codegen/mod.rs:54-56 | appends the packed mod, reg and r/m fields |
| CodeBuffer.Buffer.EmitRel32 | dbt/codegen/mod.rs:58-61 | appends the low 32 bits of the distance from the end of the field |
| CodeBuffer.Buffer.EmitMovRr | dbt/codegen/mod.rs:70-74 | appends the encoding of MOV register, register as far as it fits |
| CodeBuffer.Buffer.EmitMovRi | dbt/codegen/mod.rs:77-83 | the same for MOV register, 64-bit immediate |
| CodeBuffer.Buffer.EmitTestRr | dbt/codegen/mod.rs:86-90 | the same for TEST |
| CodeBuffer.Buffer.EmitXchgRr | dbt/codegen/mod.rs:93-97 | the same for XCHG |
| CodeBuffer.Buffer.EmitAddRr | dbt/codegen/mod.rs:100-104 | the same for ADD register, register |
| CodeBuffer.Buffer.EmitAddRi | dbt/codegen/mod.rs:107-112 | the same for ADD register, immediate |
| CodeBuffer.Buffer.EmitSubRr | dbt/codegen/mod.rs:115-119 | the same for SUB register, register |
| CodeBuffer.Buffer.EmitSubRi | dbt/codegen/mod.rs:122-127 | the same for SUB register, immediate |
| CodeBuffer.Buffer.EmitAndRr | dbt/codegen/mod.rs:130-134 | the same for AND |
| CodeBuffer.Buffer.EmitOrRr | dbt/codegen/mod.rs:137-141 | the same for OR |
| CodeBuffer.Buffer.EmitXorRr | dbt/codegen/mod.rs:144-148 | the same for XOR |
| CodeBuffer.Buffer.EmitCmpRr | dbt/codegen/mod.rs:151-155 | the same for CMP |
| CodeBuffer.Buffer.EmitPushR | dbt/codegen/mod.rs:158-162 | the same for PUSH, always without a prefix |
| CodeBuffer.Buffer.EmitPopR | dbt/codegen/mod.rs:165-169 | the same for POP, always without a prefix |
| CodeBuffer.Buffer.EmitRet | dbt/codegen/mod.rs:172 | the same for RET |
| CodeBuffer.Buffer.EmitJmpRel32 | dbt/codegen/mod.rs:175-177 | the same for JMP rel32 |
| CodeBuffer.Buffer.EmitCallRel32 | dbt/codegen/mod.rs:180-182 | the same for CALL rel32 |
| CodeBuffer.Buffer.EmitNop | dbt/codegen/mod.rs:185 | the same for NOP |
| CodeBuffer.EmittedIsPrefix | dbt/codegen/mod.rs:34-36 | after any stream the buffer is exactly the first 4096 bytes of what was there and the encoding |
| CodeBuffer.BufferRoundTrip | dbt/codegen/mod.rs:34-182 | the buffer decodes to the stream's instructions, as far as they can be expressed, iff the stream fits in 4096 bytes, and to the stream itself iff in addition all its instructions are encodable |
| X8088Opcodes.CategoryIs | dbt/x8088.rs:222-291 | which bytes at CS:IP start which kind of instruction |
| X8088Opcodes.PushStep | dbt/x8088.rs:414-421 | byte 50+r: SP drops by two, the old register r goes to SS:SP low byte first, IP moves by one |
| X8088Opcodes.PopStep | dbt/x8088.rs:422-428 | byte 58+r: SP rises by two, then register r takes the word at the old SS:SP, IP moves by one |
| X8088Opcodes.CallStep | dbt/x8088.rs:396-404 | byte E8: IP + 3 goes to the stack and IP to IP + 3 + displacement |
| X8088Opcodes.ReturnStep | dbt/x8088.rs:405-413 | bytes C3 and C2: IP from SS:SP, SP up by two and by the operand |
| X8088Opcodes.ShortJumpStep | dbt/x8088.rs:379-395 | bytes EB and 70 to 7F: IP + 2 + the signed byte, whatever the condition |
| X8088Opcodes.NearJumpStep | dbt/x8088.rs:379-386 | byte E9: IP + 3 + displacement |
| X8088Opcodes.FarJumpStep | dbt/x8088.rs:379-386 | byte EA: IP from the operand and CS zero |
| X8088Opcodes.ByteMoveStep | dbt/x8088.rs:429-433 | bytes B0+r: the byte goes to the whole register r |
| X8088Opcodes.WordMoveStep | dbt/x8088.rs:429-433 | bytes B8+r: the word goes to register r |
| X8088Opcodes.FlagStep | dbt/x8088.rs:366-378 | bytes F4, FA and FB: halt and stop, interrupts off, interrupts on |
| X8088Opcodes.InterruptStep | dbt/x8088.rs:171-216 | byte CD: which services clear AX, which end the program, and that all others that come back change nothing |
| X8088Opcodes.HangingStep | dbt/x8088.rs:196-206 | the step never comes back iff it is the string service and memory holds no dollar sign |
| X8088Stack.WriteWord | dbt/x8088.rs:145-148 | a pushed word reads back, and every other stack word and all memory outside the stack is unchanged, across both wraps |
| X8088Stack.WordsDisjoint | dbt/x8088.rs:102-104 | two stack words never share a byte, for every SS, SP parity and wrap |
| X8088Stack.StartRepresents | dbt/x8088.rs:334-340 | every running machine starts as the empty list stack at its own SS:SP |
| X8088Stack.LimitIsTight | dbt/x8088.rs:419 | one word beyond 32768 would land on the first |
| X8088Stack.StepRefines | dbt/x8088.rs:344-440 | each push, pop, call, near return, jump, register move or unknown byte is one step of the list machine |
| X8088Stack.RunRefines | dbt/x8088.rs:344-440 | every run of such steps behaves as the list stack |
| X8088Stack.FloorKept | dbt/x8088.rs:396-428 | words below the lowest depth of a run are never touched |
| X8088Stack.BodyReturns | dbt/x8088.rs:405-413 | a body that keeps its return address and ends in RET jumps there with the caller's stack |
| X8088Stack.CallReturns | dbt/x8088.rs:396-413 | a balanced callee, with pushes, pops and calls nested to any depth, returns after its CALL with SP and every stacked word restored |
| X8088Stack.PushPop | dbt/x8088.rs:414-428 | push then pop copies a register and restores SP and the stack |
| X8088.UnnamedIsSkipped | dbt/x8088.rs:222-291 | the decoder gives a meaning to exactly the listed opcodes; any other byte moves IP by one and the clock by five and changes nothing else |
| X8088.ByteMoveExact | dbt/x8088.rs:429-433 | MOV of a byte has the effect it has on the processor iff a low half lies under a zero high half, or a high half and the register written both hold the byte already |
| X8088Store.X8088Executor.constructor | dbt/x8088.rs:319-327 | the reset values of registers and memory |
| X8088Store.X8088Executor.ReadGp16 | dbt/x8088.rs:444-451 | the register with that three-bit number, in encoding order |
| X8088Store.X8088Executor.WriteGp16 | dbt/x8088.rs:453-460 | changes exactly that register |
| X8088Store.X8088Executor.WriteByte | dbt/x8088.rs:135-137 | changes the one byte at the 20-bit address |
| X8088Store.X8088Executor.WriteWord | dbt/x8088.rs:145-148 | changes the two bytes, wrapping at one megabyte |
| X8088Store.X8088Executor.PushValue | dbt/x8088.rs:417-420 | SP drops by two and the word is stored there |
| X8088Store.X8088Executor.FindTerminator | dbt/x8088.rs:196-205 | the read-on loop, all the way round memory, meets the terminator iff memory holds one |
| X8088Store.X8088Executor.HandleInt | dbt/x8088.rs:171-216 | whether the service comes back, and its effect on AX and the exit flag if so |
| X8088Store.X8088Executor.Return | dbt/x8088.rs:405-413 | IP from the stack, SP up by two and the immediate |
| X8088Store.X8088Executor.StepOnce | dbt/x8088.rs:344-440 | for every memory and register content: whether the step comes back, and if so result and new state are the step function's |
| Tage.UpdateKeepsProvider | performance/tage/tagepredictor.c:130-143 | a matched branch keeps its table and only its entry is trained |
| Tage.UpdateAllocates | performance/tage/tagepredictor.c:144-158 | an unmatched branch gets the lowest free or unused entry, which then predicts it with the outcome's direction; with none, nothing changes for it |
| Tage.ProvidedConverges | performance/tage/tagepredictor.c:71-143 | from a matched state the direction is predicted after exactly as many updates as the entry's confidence plus one, and exactly that many are mispredictions |
| Tage.Converges | performance/tage/tagepredictor.c:71-165 | from every state, after eight or more updates in one direction it is predicted iff it is learnable, with at most eight mispredictions |
| Tage.ConvergesAmong | performance/tage/tagepredictor.c:71-165 | the same over every run in which the branch comes at least eight times, interleaved with any branches that share no table entry and no target-buffer entry with it; exactly the entry's confidence plus one of its own updates, or none, are mispredictions |
| Tage.UnlearnableReached | performance/tage/tagepredictor.c:49-158 | from an unused predictor eight updates of four branches lead to a state in which another branch that is never taken stays predicted taken |
| Tage.UnprovidedStuck | performance/tage/tagepredictor.c:95-102 | an unmatched branch without an allocatable entry is predicted taken whatever happens |
| Tage.ContraryOutcome | performance/tage/tagepredictor.c:136-141 | one contrary outcome turns the prediction iff the confidence is zero |
| Tage.TargetRemembered | performance/tage/tagepredictor.c:160-164 | the next predicted target is the one last recorded |
| Tage.CountersBalance | performance/tage/tagepredictor.c:117-142 | over every run predictions are correct ones plus mispredictions plus unmatched updates, as 64-bit counters |
| TageEntries.SharesEntry | performance/tage/tagepredictor.c:49-57 | two branches share their entry of table t iff their addresses agree on bits 4t+2 to 4t+13 |
| TageEntries.SharesTarget | performance/tage/tagepredictor.c:95-95 | and their target-buffer entry iff they agree on the low 13 bits |
| TageEntries.ApartIffBitsDiffer | performance/tage/tagepredictor.c:49-95 | so two branches are apart, as the theorem on interleaved runs demands, iff their addresses differ in each of the windows 2-13, 6-17, 10-21, 14-25 and 0-12 |
| TageEntries.AliasLow | performance/tage/tagepredictor.c:49-67 | in tables 0 and 1 equal entry and equal tag force equal addresses |
| TageEntries.AliasHigh | performance/tage/tagepredictor.c:49-67 | in table 2 two branches are taken for one another iff they differ alike on bits 8 and 22 and on bits 9 and 23 and nowhere else |
| TageEntries.AliasTop | performance/tage/tagepredictor.c:49-67 | in table 3 iff they differ alike on each of bits 8 to 11 and the bit 18 above, on bits 12 and 13 in any way, and nowhere else |
| TageEntries.PredictMeans | performance/tage/tagepredictor.c:76-107 | the highest table whose entry is valid and has the branch's tag predicts; without one, taken iff the target buffer holds the address |
| TageEntries.UpdateServed | performance/tage/tagepredictor.c:130-143 | that entry's confidence rises to at most 7, falls, or at 0 its direction turns; which counter advances; no other entry changes |
| TageEntries.UpdateAllocatesFirst | performance/tage/tagepredictor.c:144-158 | a branch no table serves gets its entry in the lowest table where that is unused or of confidence 0, valid, of confidence 0 and with the outcome, and exactly its aliases find it there |
| TageEntries.UpdateFindsNoRoom | performance/tage/tagepredictor.c:144-158 | with none, no entry changes |
| TageEntries.ConfidenceAfter | performance/tage/tagepredictor.c:132-134 | after n agreeing updates the confidence is min(7, u + n) |
| TageEntries.TargetsOverRuns | performance/tage/tagepredictor.c:95-165 | over every run from an empty target buffer, the predicted target is the one last recorded if no other branch with the same low 13 bits has come since, and the address plus 4 otherwise |
| TageStore.TagePredictor.constructor | performance/tage/tagepredictor.c:33-47 | no entry and no target is in use, so none matches and every entry is allocatable; counters are zero |
| TageStore.TagePredictor.FindProvider | performance/tage/tagepredictor.c:119-128 | the downward search finds the highest matching table |
| TageStore.TagePredictor.PredictBranch | performance/tage/tagepredictor.c:71-108 | direction and target are the prediction functions' |
| TageStore.TagePredictor.AllocateEntry | performance/tage/tagepredictor.c:144-158 | exactly the lowest allocatable entry is replaced, or nothing |
| TageStore.TagePredictor.TrainEntry | performance/tage/tagepredictor.c:130-143 | exactly the matching entry is trained and exactly one counter advances |
| TageStore.TagePredictor.UpdateBranch | performance/tage/tagepredictor.c:110-165 | the new tables, target buffer and counters are the update function's |
| Bits.SetBit32 | hwcompat/apic/ApicShadow.c:121 | exactly the one bit is set |
| Bits.ClearBit32 | hwcompat/apic/ApicShadow.c:140 | exactly the one bit is cleared |
| Bits.Msb32 | hwcompat/apic/ApicShadow.c:139 | the bit is set and no higher one is |
| Apic.TopIsMax | hwcompat/apic/ApicShadow.c:137-139 | the scan from register 7 down finds the greatest vector of the set, and nothing iff the set is empty |
| Apic.InjectAdds | hwcompat/apic/ApicShadow.c:112-127 | a vector below 256 joins the request set and nothing else changes |
| Apic.PendingMoves | hwcompat/apic/ApicShadow.c:149-174 | the greatest request moves into service |
| Apic.EoiRetires | hwcompat/apic/ApicShadow.c:129-147 | the greatest vector in service leaves, and nothing happens if there is none |
| Apic.StepRefines | hwcompat/apic/ApicShadow.c:55-174 | every operation on the registers, for every vector and guest writes to every register included, is the operation on the two sets and the timer |
| Apic.VectorsInPage | hwcompat/apic/ApicShadow.c:112-147 | vector v is requested iff bit v mod 32 of the register at 0x200 + 16(v div 32) is set, and in service iff that of the one at 0x100 + 16(v div 32) is |
| Apic.TimerBits | hwcompat/apic/ApicShadow.c:72-107 | the timer entry is masked by bit 16 and periodic by bit 17 |
| Apic.ReadAfterWrite | hwcompat/apic/ApicShadow.c:44-86 | a register reads back what was last written at any byte of it and no other register changes, except in-service registers on a write at the end-of-interrupt offset |
| Apic.DrainsByPriority | hwcompat/apic/ApicShadow.c:149-174 | repeated calls return exactly the request set in strictly decreasing order and then nothing, and all of it is in service |
| Apic.EndsEmptyService | hwcompat/apic/ApicShadow.c:129-147 | n ends of interrupt empty the in-service set iff it has at most n vectors, and leave requests alone |
| Apic.TakeThenEnd | hwcompat/apic/ApicShadow.c:129-174 | taking and ending restores the in-service set iff the vector taken is above all in service |
| ApicTimer.RunRefines | hwcompat/apic/ApicShadow.c:55-174 | every run of any operations on the registers is a run of the two-set controller |
| ApicTimer.AbstractRunUnique | hwcompat/apic/ApicShadow.c:55-174 | which is deterministic, so the sets a run ends with are determined |
| ApicTimer.RunKeepsTimerInv | hwcompat/apic/ApicShadow.c:68-110 | in every reachable state a running timer has between one tick and its initial count left |
| ApicTimer.TimerClosedForm | hwcompat/apic/ApicShadow.c:68-110 | after programming, any run that leaves the timer registers alone injects ticks div n times in periodic mode, once at tick n in one-shot mode, never if masked, zero or below vector 16; and the count left is given |
| ApicTimer.FiringRequests | hwcompat/apic/ApicShadow.c:94-101 | a firing tick requests the timer's vector and any other tick changes no register |
| ApicTimer.MaskingLater | hwcompat/apic/ApicShadow.c:68-76 | after masking the entry, some run that leaves the timer's registers alone still fires iff the timer was running and the new vector is at least 16 |
| ApicStore.ApicShadow.constructor | hwcompat/apic/ApicShadow.c:20-42 | empty sets, masked stopped timer, identification and version registers set and all others zero |
| ApicStore.ApicShadow.ReadRegister | hwcompat/apic/ApicShadow.c:44-53 | the register at that offset, and zero beyond the page |
| ApicStore.ApicShadow.FindTop | hwcompat/apic/ApicShadow.c:137-138 | the scanning loop finds the highest nonzero register of a file |
| ApicStore.ApicShadow.InjectInterrupt | hwcompat/apic/ApicShadow.c:112-127 | new state is the injection function's; the vector is returned below 1024 and zero otherwise |
| ApicStore.ApicShadow.EndInterrupt | hwcompat/apic/ApicShadow.c:129-147 | new state is the end-of-interrupt function's |
| ApicStore.ApicShadow.GetPending | hwcompat/apic/ApicShadow.c:149-174 | true iff the request set is not empty, and then its maximum |
| ApicStore.ApicShadow.WriteRegister | hwcompat/apic/ApicShadow.c:55-86 | new state is the write function's, side effects included |
| ApicStore.ApicShadow.TimerTick | hwcompat/apic/ApicShadow.c:88-110 | new state is the tick function's and the timer invariant is kept |
| ApicStore.ApicShadow.HandleMmio | hwcompat/apic/ApicShadow.c:176-195 | accesses inside the page read or write that register, all others are declined without effect |
| PentiumCache.HitIffSameLine | simulator/pentium_cpu.py:26-37 | after any accesses to a cache that starts empty, an access hits iff the last one on its slot had the same line |
| PentiumCache.SlotsHoldLastLines | simulator/pentium_cpu.py:26-37 | each slot holds the line of the last access that fell on it |
| PentiumCache.AccessesCounted | simulator/pentium_cpu.py:31-37 | hits plus misses is the number of accesses |
| PentiumCache.CreepingMisses | simulator/pentium_cpu.py:26-37 | a stream that never goes back nor skips a line misses once for each line from first to last, for any cache geometry |
| PentiumCache.MissesAreChanges | simulator/pentium_cpu.py:53-65 | BTB misses are exactly the direction changes per entry, starting from not taken |
| Pentium.UnitsAreIndependent | simulator/pentium_cpu.py:178-301 | over every stream each cache and the BTB behave as if they saw their own part of it alone |
| Pentium.CyclesAreBilled | simulator/pentium_cpu.py:196-301 | over every stream the clock equals the weighted sum of the counters and the instruction mix |
| AptOs.GenerateInterpretedWorkload | simulator/apt_os_sim.py:122-158 | the nested loops append exactly the closed-form stream, for any number of bytecodes |
| AptOs.PrefixShows | simulator/apt_os_sim.py:139-156 | after any number of its instructions: which addresses, branches and plain instructions the stream has shown |
| AptOs.LastDispatch | simulator/pentium_cpu.py:53-65 | the previous dispatch on the same BTB entry is exactly 128 bytecodes back |
| AptOs.InterpreterBranches | simulator/pentium_cpu.py:53-65 | ceil(min(n, 128) / 2) BTB misses for every n |
| AptOs.InterpreterData | simulator/pentium_cpu.py:26-37 | 1 + 40(n - 1) div 64 data-cache misses for every n of at least 1 |
| AptOs.InterpreterFetch | simulator/pentium_cpu.py:286-295 | 1 + 40n div 64 instruction-cache misses for every n of at least 1 |
| AptOs.InterpreterCounters | simulator/apt_os_sim.py:122-158 | all counters and the clock in closed form for every n of at least 1 |
| PentiumStore.DirectMappedCache.constructor | simulator/pentium_cpu.py:18-24 | an empty cache of size / line size slots |
| PentiumStore.DirectMappedCache.Lookup | simulator/pentium_cpu.py:26-37 | hit or miss, and the new lines and counters, are the access function's |
| PentiumStore.DirectMappedCache.Reset | simulator/pentium_cpu.py:39-42 | the cache is empty again |
| PentiumStore.BranchTargetBuffer.constructor | simulator/pentium_cpu.py:46-51 | every entry predicts not taken |
| PentiumStore.BranchTargetBuffer.PredictAndUpdate | simulator/pentium_cpu.py:53-65 | the answer, table and counters are the resolve function's |
| PentiumStore.BranchTargetBuffer.Reset | simulator/pentium_cpu.py:67-70 | every entry predicts not taken again |
| PentiumStore.PentiumCpu.constructor | simulator/pentium_cpu.py:74-117 | the stock processor the closed forms speak of |
| PentiumStore.PentiumCpu.ResetStats | simulator/pentium_cpu.py:119-124 | clock, counters, caches and BTB are as new |
| PentiumStore.PentiumCpu.ExecuteOne | simulator/pentium_cpu.py:196-301 | one instruction of any kind has the effect of the execute function, cycles included |
| PentiumStore.PentiumCpu.ExecuteInstructionBlock | simulator/pentium_cpu.py:178-301 | the loop over a stream has the effect of executing all of it |

## Left out

- Optimizer.OptimizePreservesMeaning: the hypothesis is on the block alone and sufficient; that it is not necessary for one particular state is what `SecondPassExact` settles, prefix by prefix, because a wrong register may be overwritten before the block ends.
- WideArith.MultiplyDivideInvert: besides RAX and RDX the flags register is excluded as the operand, since the multiplication rewrites it.
- TraceCacheRuns.ReachableAgrees: holds while all nodes are clear of the bucket table; `InsertKeepsChainsIff` and `FlagBreaks` say what happens to the chains at and past it. Lookups and invalidations that follow wild pointers read memory that is not part of this model.
- TraceCacheStore.TraceCacheHeader.constructor: a region too small for header and table (less than 524344 bytes, where initialisation clears its own header) and the replacement of a small size by the default are not modelled.
- X8088Stack.StepRefines: HLT, CLI, STI and INT, far jumps, RET with an immediate and writes to SP are modelled in the step function but are not steps of the list machine.
- AptOs.InterpreterFetch: the hypervisor's scaled latencies, random hits and thread division are not modelled.
- NULL and not-initialised checks, debug and trace output, statistics printing and memory allocation failure.
- Spin locks and concurrency: one trace-cache operation runs at a time.
- `TraceCacheWarmKernel`, the prefill functions and `TagePrefillKernel`, which call the modelled operations in a loop.
- The fields of a translation block, trace-cache node or header that no modelled operation reads (guest address and size, target hit rate).
- Relocation arrays of the code buffer, which nothing reads or writes after initialisation. `emit_u64` is folded into the emitter that uses it.
- The dead prefix branch of the push and pop emitters.
- BitOps.BitwiseResult: RCL and RCR ignore the carry, so they are stated as what they do, rotations of the register alone.
- Console output of INT 21h; ES and FLAGS of the 8088, which no modelled instruction uses.
- X64.EncodeDecodeAll: redundant REX prefixes, which a processor ignores on push, pop, jumps and returns, are not decoded.
- The 8259 mask registers and the APIC's own copy of its identifier.
- `dbt/translator.rs` and `dbt/decoder.rs`: they rest on a decoding library that is not part of this model.
- The other workload generators (they draw random numbers), the hypervisor profile, energy and rate figures.
- Hypervisor, firmware tables, boot, USB, bandwidth governor, memory compressor, fusion counters, benchmark models: hardware and service plumbing, or bookkeeping that would only add easy members.

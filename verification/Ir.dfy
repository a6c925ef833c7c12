/** The micro-operation IR: registers, opcodes, instructions and the block that holds them. */
module Ir {
  import opened Words

  const MAX_MICRO_OPS_PER_BLOCK := 256

  /** Register numbers 0..32; 255 is the register that reads zero and drops writes. */
  type Register = r: int | 0 <= r <= 32 || r == 255

  const RAX: Register := 0
  const RDX: Register := 2
  const RSP: Register := 4
  const RFlags: Register := 32
  const RNone: Register := 255

  datatype MicroOpCode =
    | Nop
    | MovRR | MovRI | MovRM | MovMR | MovMI
    | AddRR | AddRI | SubRR | SubRI
    | AdcRR | SbbRR
    | MulRR | MulRI | DivRR | IdivRR
    | ImulRR | ImulRI
    | CmpRR | CmpRI
    | JmpRel | JmpAbs | JccRel
    | CallRel | CallAbs | Ret
    | PushR | PopR
    | LoadRR | StoreRR
    | AndRR | OrRR | XorRR
    | ShlRR | ShrRR | SarRR
    | NotR | NegR | IncR | DecR
    | LeaRR
    | MovsxRR | MovzxRR
    | Cmovcc | Setcc
    | Cdq | Cqo
    | Cpuid | Rdmsr | Wrmsr
    | Hlt | Cli | Sti
    | Invlpg | Mfence
    | Xsave | Xrstor | Wbinvd
    | Syscall | Sysret
    | IntVec | Iret
    | Movsxd
    | TraceExit
    | MacroOpFused | MacroOpPassthrough
    | TestRR | TestRI
    | BsfRR | BsrRR
    | PopcntRR
    | RolRI | RorRI | RclRI | RcrRI
    | BtRI | BtrRI | BtsRI | BtcRI
    | CmpxchgRR
    | XaddRR
    | XchgRR

  datatype MicroOpInst = MicroOpInst(
    code: MicroOpCode,
    dst: Register,
    src1: Register,
    src2: Register,
    immediate: Word,
    operandSize: Byte)

  const EMPTY_SLOT := MicroOpInst(Nop, RNone, RNone, RNone, 0, 8)

  /** A translated block: a fixed array of which the first `microOpCount` slots are in use. */
  class TranslationBlock {
    var microOpCount: nat
    const microOps: array<MicroOpInst>

    ghost predicate Valid()
      reads this
    {
      microOps.Length == MAX_MICRO_OPS_PER_BLOCK && microOpCount <= microOps.Length
    }

    /** The micro-ops in use, in order. */
    ghost function Contents(): seq<MicroOpInst>
      requires Valid()
      reads this, microOps
    {
      microOps[..microOpCount]
    }

    constructor ()
      ensures Valid() && fresh(microOps) && Contents() == []
    {
      microOps := new MicroOpInst[MAX_MICRO_OPS_PER_BLOCK](_ => EMPTY_SLOT);
      microOpCount := 0;
    }

    method Push(inst: MicroOpInst) returns (ok: bool)
      requires Valid()
      modifies this, microOps
      ensures Valid()
      ensures ok == (|old(Contents())| < MAX_MICRO_OPS_PER_BLOCK)
      ensures Contents() == if ok then old(Contents()) + [inst] else old(Contents())
    {
      if microOpCount < MAX_MICRO_OPS_PER_BLOCK {
        microOps[microOpCount] := inst;
        microOpCount := microOpCount + 1;
        ok := true;
      } else {
        ok := false;
      }
    }

    method Remove(index: nat)
      requires Valid()
      modifies this, microOps
      ensures Valid()
      ensures Contents() ==
              if index < |old(Contents())| then old(Contents())[..index] + old(Contents())[index + 1..]
              else old(Contents())
    {
      var count := microOpCount;
      if index < count {
        for j := index to count - 1
          invariant microOpCount == count
          invariant forall k :: 0 <= k < index ==> microOps[k] == old(microOps[k])
          invariant forall k :: index <= k < j ==> microOps[k] == old(microOps[k + 1])
          invariant forall k :: j <= k < microOps.Length ==> microOps[k] == old(microOps[k])
        {
          microOps[j] := microOps[j + 1];
        }
        microOpCount := microOpCount - 1;
      }
    }
  }
}

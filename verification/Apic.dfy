/**
 * The local APIC shadow: 256 registers holding the request and in-service bits, and a countdown timer.
 * The two register files refine two sets of vectors that drain by priority.
 */
module Apic {
  import opened Words
  import opened Bits

  const REGS := 256
  /** Word index of the first in-service register; the eight registers are four words apart. */
  const ISR := 0x40
  /** Word index of the first request register. */
  const IRR := 0x80
  const MMIO_SIZE := 0x400
  const LVT_TIMER := 0x320
  const INITIAL_COUNT := 0x380
  const EOI := 0xB0

  datatype Apic = Apic(regs: seq<Word32>, enabled: bool, initial: Word32, current: Word32, lvt: Word32)

  predicate Shape(s: Apic) { |s.regs| == REGS }

  predicate IsFile(base: nat) { base == ISR || base == IRR }

  /** The word is one of the eight registers of a file. */
  predicate InFile(base: nat, w: nat) { w % 4 == 0 && base <= w < base + 32 }

  // ---- the operations ------------------------------------------------------

  function RegOf(base: nat, v: nat): nat { base + 4 * (v / 32) }

  predicate Holds(s: Apic, base: nat, v: nat)
    requires Shape(s) && IsFile(base) && v < 256
  {
    Bit(s.regs[RegOf(base, v)], v % 32)
  }

  function Raise(s: Apic, base: nat, v: nat): (r: Apic)
    requires Shape(s) && RegOf(base, v) < REGS
    ensures Shape(r)
  {
    s.(regs := s.regs[RegOf(base, v) := SetBit32(s.regs[RegOf(base, v)], v % 32)])
  }

  function Lower(s: Apic, base: nat, v: nat): (r: Apic)
    requires Shape(s) && RegOf(base, v) < REGS
    ensures Shape(r)
  {
    s.(regs := s.regs[RegOf(base, v) := ClearBit32(s.regs[RegOf(base, v)], v % 32)])
  }

  /** The highest nonzero register below register `n` of a file, or -1. */
  function TopReg(s: Apic, base: nat, n: nat): (i: int)
    requires Shape(s) && IsFile(base) && n <= 8
    ensures -1 <= i < n && (i >= 0 ==> s.regs[base + 4 * i] != 0)
    ensures forall j :: i < j < n ==> s.regs[base + 4 * j] == 0
    decreases n
  {
    if n == 0 then -1 else if s.regs[base + 4 * (n - 1)] != 0 then n - 1 else TopReg(s, base, n - 1)
  }

  function Top(s: Apic, base: nat): (v: Option<nat>)
    requires Shape(s) && IsFile(base)
    ensures v.Some? ==> v.value < 256
  {
    var i := TopReg(s, base, |s.regs| / 32);
    if i < 0 then None else Some(32 * i + Msb32(s.regs[base + 4 * i]))
  }

  function Inject(s: Apic, v: Word32): Apic
    requires Shape(s)
  {
    if RegOf(IRR, v) < REGS then Raise(s, IRR, v) else s
  }

  /** The highest requested vector moves into service. */
  function TakePending(s: Apic): (r: Apic)
    requires Shape(s)
    ensures Shape(r)
  {
    match Top(s, IRR)
    case None => s
    case Some(v) =>
      Raise(Lower(s, IRR, v), ISR, v)
  }

  function EndOfInterrupt(s: Apic): (r: Apic)
    requires Shape(s)
    ensures Shape(r)
  {
    match Top(s, ISR)
    case None => s
    case Some(v) =>
      Lower(s, ISR, v)
  }

  predicate Masked(lvt: Word32) { lvt / 0x1_0000 % 2 == 1 }

  predicate Periodic(lvt: Word32) { lvt / 0x2_0000 % 2 == 1 }

  function VectorOf(lvt: Word32): nat { lvt % 256 }

  function Write(s: Apic, offset: Word32, value: Word32): (r: Apic)
    requires Shape(s)
    ensures Shape(r)
  {
    if offset >= MMIO_SIZE then s
    else
      var d := s.(regs := s.regs[offset / 4 := value]);
      if offset == LVT_TIMER then d.(lvt := value)
      else if offset == INITIAL_COUNT then
        d.(initial := value, current := value, enabled := value > 0 && !Masked(d.lvt))
      else if offset == EOI then EndOfInterrupt(d)
      else d
  }

  function Read(s: Apic, offset: Word32): Word32
    requires Shape(s)
  {
    if offset >= MMIO_SIZE then 0 else s.regs[offset / 4]
  }

  /** The tick is the one on which the counter reaches zero. */
  predicate Expires(s: Apic) { s.enabled && s.current == 1 }

  function Tick(s: Apic): (r: Apic)
    requires Shape(s)
    ensures Shape(r)
  {
    if !s.enabled || s.current == 0 then s
    else if s.current > 1 then s.(current := s.current - 1)
    else
      var d := if VectorOf(s.lvt) >= 16 then Inject(s, VectorOf(s.lvt)) else s;
      if Periodic(s.lvt) then d.(current := d.initial) else d.(current := 0, enabled := false)
  }

  // ---- the two sets --------------------------------------------------------

  function Vectors(s: Apic, base: nat): set<nat>
    requires Shape(s) && IsFile(base)
  {
    set v: nat | v < 256 && Holds(s, base, v)
  }

  predicate IsMax(v: nat, vectors: set<nat>) { v in vectors && forall u :: u in vectors ==> u <= v }

  /** Every vector of the file is at or below the one the scan finds. */
  lemma NoneAboveTop(s: Apic, base: nat, u: nat)
    requires Shape(s) && IsFile(base) && u < 256 && Holds(s, base, u)
    ensures Top(s, base).Some? && u <= Top(s, base).value
  {
    var i := TopReg(s, base, |s.regs| / 32);
    ZeroHasNoBits(u % 32);
    assert s.regs[base + 4 * (u / 32)] != 0;
    assert u / 32 <= i;
    if u / 32 == i {
      assert u % 32 <= Msb32(s.regs[base + 4 * i]);
    }
  }

  lemma TopIsHeld(s: Apic, base: nat)
    requires Shape(s) && IsFile(base) && Top(s, base).Some?
    ensures Top(s, base).value < 256 && Holds(s, base, Top(s, base).value)
  {
    var i := TopReg(s, base, |s.regs| / 32);
    HeldAt(s, base, i, Msb32(s.regs[base + 4 * i]), Top(s, base).value);
  }

  lemma HeldAt(s: Apic, base: nat, i: nat, b: nat, v: nat)
    requires Shape(s) && IsFile(base) && i < 8 && b < 32 && v == 32 * i + b
    ensures v < 256 && Holds(s, base, v) == Bit(s.regs[base + 4 * i], b)
  {
    Compose(i, b);
  }

  lemma Compose(i: nat, b: nat)
    requires b < 32
    ensures (32 * i + b) / 32 == i && (32 * i + b) % 32 == b
  {
  }

  /** The scan from register 7 down finds the highest vector of the set, and nothing exactly if the set
    * is empty. */
  lemma TopIsMax(s: Apic, base: nat)
    requires Shape(s) && IsFile(base)
    ensures match Top(s, base) case None => Vectors(s, base) == {} case Some(v) => IsMax(v, Vectors(s, base))
  {
    forall u | u in Vectors(s, base) ensures Top(s, base).Some? && u <= Top(s, base).value {
      NoneAboveTop(s, base, u);
    }
    if Top(s, base).Some? {
      TopIsHeld(s, base);
    }
  }

  lemma RaiseAdds(s: Apic, base: nat, v: nat)
    requires Shape(s) && IsFile(base) && v < 256
    ensures Vectors(Raise(s, base, v), base) == Vectors(s, base) + {v}
  {
    forall u: nat | u < 256 ensures Holds(Raise(s, base, v), base, u) == (u == v || Holds(s, base, u)) {
      assert u == v <==> u / 32 == v / 32 && u % 32 == v % 32;
    }
  }

  lemma LowerRemoves(s: Apic, base: nat, v: nat)
    requires Shape(s) && IsFile(base) && v < 256
    ensures Vectors(Lower(s, base, v), base) == Vectors(s, base) - {v}
  {
    forall u: nat | u < 256 ensures Holds(Lower(s, base, v), base, u) == (u != v && Holds(s, base, u)) {
      assert u == v <==> u / 32 == v / 32 && u % 32 == v % 32;
    }
  }

  /** The two files do not overlap. */
  lemma OtherFileKept(s: Apic, d: Apic, w: nat, base: nat)
    requires Shape(s) && Shape(d) && IsFile(base)
    requires forall i :: 0 <= i < REGS && i != w ==> d.regs[i] == s.regs[i]
    requires !InFile(base, w)
    ensures Vectors(d, base) == Vectors(s, base)
  {
    forall u: nat | u < 256 ensures Holds(d, base, u) == Holds(s, base, u) {
      assert RegOf(base, u) != w;
    }
  }

  // ---- the abstract controller ---------------------------------------------

  datatype Controller = Controller(
    irr: set<nat>, isr: set<nat>, enabled: bool, initial: Word32, current: Word32, lvt: Word32)

  function Abstract(s: Apic): Controller
    requires Shape(s)
  {
    Controller(Vectors(s, IRR), Vectors(s, ISR), s.enabled, s.initial, s.current, s.lvt)
  }

  datatype Op =
    | InjectOp(vector: Word32)
    | PendingOp
    | EoiOp
    | TickOp
    | WriteOp(offset: Word32, value: Word32)

  function Step(s: Apic, op: Op): (r: Apic)
    requires Shape(s)
    ensures Shape(r)
  {
    match op
    case InjectOp(v) => Inject(s, v)
    case PendingOp => TakePending(s)
    case EoiOp => EndOfInterrupt(s)
    case TickOp => Tick(s)
    case WriteOp(offset, value) => Write(s, offset, value)
  }

  /** The set after register `i` of its file is overwritten: the register's 32 vectors are the bits of the value. */
  function Overwritten(vectors: set<nat>, i: nat, value: Word32): set<nat> {
    set v: nat | v < 256 && (if v / 32 == i then Bit(value, v % 32) else v in vectors)
  }

  /** What a guest write makes of the set in the eight registers that start at byte offset `first` of the page,
    * 16 bytes apart. */
  function AfterWrite(vectors: set<nat>, first: nat, offset: nat, value: Word32): set<nat> {
    if first <= offset < first + 0x80 && offset / 4 % 4 == 0 then Overwritten(vectors, (offset - first) / 16, value)
    else vectors
  }

  /** `c` turns into `d` by moving the greatest request into service, if there is one. */
  ghost predicate Moves(c: Controller, d: Controller) {
    if c.irr == {} then d == c
    else exists v :: IsMax(v, c.irr) && d == c.(irr := c.irr - {v}, isr := c.isr + {v})
  }

  ghost predicate Retires(c: Controller, d: Controller) {
    if c.isr == {} then d == c else exists v :: IsMax(v, c.isr) && d == c.(isr := c.isr - {v})
  }

  function AbstractTick(c: Controller): Controller {
    if !c.enabled || c.current == 0 then c
    else if c.current > 1 then c.(current := c.current - 1)
    else
      var d := if c.lvt % 256 >= 16 then c.(irr := c.irr + {c.lvt % 256}) else c;
      if Bit(c.lvt, 17) then d.(current := d.initial) else d.(current := 0, enabled := false)
  }

  ghost predicate AbstractStep(c: Controller, op: Op, d: Controller) {
    match op
    case InjectOp(v) => d == if v < 256 then c.(irr := c.irr + {v}) else c
    case PendingOp => Moves(c, d)
    case EoiOp => Retires(c, d)
    case TickOp => d == AbstractTick(c)
    case WriteOp(offset, value) =>
      if offset == 0x320 then d == c.(lvt := value)
      else if offset == 0x380 then
        d == c.(initial := value, current := value, enabled := value > 0 && !Bit(c.lvt, 16))
      else if offset == 0xB0 then Retires(c, d)
      else
        d == c.(irr := AfterWrite(c.irr, 0x200, offset, value), isr := AfterWrite(c.isr, 0x100, offset, value))
  }

  /** Bits 16 and 17 of the timer's vector entry. */
  lemma TimerBits(lvt: Word32)
    ensures Masked(lvt) == Bit(lvt, 16) && Periodic(lvt) == Bit(lvt, 17)
  {
    assert Pow2(8) == 0x100;
    assert Pow2(16) == 0x1_0000;
    BitOfQuotient(lvt, 16, 0x1_0000, lvt / 0x1_0000, 0);
    BitOfQuotient(lvt, 17, 0x2_0000, lvt / 0x2_0000, 0);
  }

  /** Which bit of which register of the page says that a vector is requested, and which that it is in service. */
  lemma VectorsInPage(s: Apic, v: nat)
    requires Shape(s) && v < 256
    ensures v in Vectors(s, IRR) <==> Bit(Read(s, 0x200 + 16 * (v / 32)), v % 32)
    ensures v in Vectors(s, ISR) <==> Bit(Read(s, 0x100 + 16 * (v / 32)), v % 32)
  {
    PageWord(0x200, v / 32);
    PageWord(0x100, v / 32);
  }

  lemma PageWord(first: nat, i: nat)
    requires first % 4 == 0 && i < 8
    ensures (first + 16 * i) / 4 == first / 4 + 4 * i
  {
  }

  lemma PendingMoves(s: Apic)
    requires Shape(s)
    ensures Moves(Abstract(s), Abstract(TakePending(s)))
    ensures match Top(s, IRR) case None => Vectors(s, IRR) == {} case Some(v) => IsMax(v, Vectors(s, IRR))
  {
    TopIsMax(s, IRR);
    if Top(s, IRR).Some? {
      var v := Top(s, IRR).value;
      var low := Lower(s, IRR, v);
      LowerRemoves(s, IRR, v);
      OtherFileKept(s, low, RegOf(IRR, v), ISR);
      RaiseAdds(low, ISR, v);
      OtherFileKept(low, Raise(low, ISR, v), RegOf(ISR, v), IRR);
    }
  }

  lemma EoiRetires(s: Apic)
    requires Shape(s)
    ensures Retires(Abstract(s), Abstract(EndOfInterrupt(s)))
  {
    TopIsMax(s, ISR);
    if Top(s, ISR).Some? {
      var v := Top(s, ISR).value;
      LowerRemoves(s, ISR, v);
      OtherFileKept(s, Lower(s, ISR, v), RegOf(ISR, v), IRR);
    }
  }

  lemma InjectAdds(s: Apic, v: nat)
    requires Shape(s) && v < 256
    ensures Abstract(Inject(s, v)) == Abstract(s).(irr := Vectors(s, IRR) + {v})
  {
    RaiseAdds(s, IRR, v);
    OtherFileKept(s, Inject(s, v), RegOf(IRR, v), ISR);
  }

  lemma InjectRefines(s: Apic, v: Word32)
    requires Shape(s)
    ensures AbstractStep(Abstract(s), InjectOp(v), Abstract(Inject(s, v)))
  {
    if v < 256 {
      InjectAdds(s, v);
    } else if RegOf(IRR, v) < REGS {
      OtherFileKept(s, Inject(s, v), RegOf(IRR, v), IRR);
      OtherFileKept(s, Inject(s, v), RegOf(IRR, v), ISR);
    }
  }

  /** Every operation on the registers, guest writes to any register included, is the same operation on
    * the two sets. */
  lemma StepRefines(s: Apic, op: Op)
    requires Shape(s)
    ensures AbstractStep(Abstract(s), op, Abstract(Step(s, op)))
  {
    match op
    case InjectOp(v) => InjectRefines(s, v);
    case PendingOp => PendingMoves(s);
    case EoiOp => EoiRetires(s);
    case TickOp => TickRefines(s);
    case WriteOp(offset, value) => WriteRefines(s, offset, value);
  }

  lemma TickRefines(s: Apic)
    requires Shape(s)
    ensures Abstract(Tick(s)) == AbstractTick(Abstract(s))
  {
    InjectAdds(s, VectorOf(s.lvt));
    TimerBits(s.lvt);
    var d := if VectorOf(s.lvt) >= 16 then Inject(s, VectorOf(s.lvt)) else s;
    SameRegisters(d, Tick(s));
    SameRegisters(s, Tick(s));
  }

  lemma SameRegisters(s: Apic, d: Apic)
    requires Shape(s) && Shape(d)
    ensures d.regs == s.regs ==> Vectors(d, IRR) == Vectors(s, IRR) && Vectors(d, ISR) == Vectors(s, ISR)
  {
  }

  lemma StoredRegister(s: Apic, base: nat, offset: Word32, value: Word32)
    requires Shape(s) && IsFile(base) && offset < 0x400
    ensures Vectors(s.(regs := s.regs[offset / 4 := value]), base)
            == AfterWrite(Vectors(s, base), 4 * base, offset, value)
  {
    var w := offset / 4;
    var d := s.(regs := s.regs[w := value]);
    if InFile(base, w) {
      var i := (offset - 4 * base) / 16;
      assert w == base + 4 * i;
      forall v: nat | v < 256
        ensures Holds(d, base, v) == if v / 32 == i then Bit(value, v % 32) else Holds(s, base, v)
      {
        assert RegOf(base, v) == w <==> v / 32 == i;
      }
    } else {
      OtherFileKept(s, d, w, base);
    }
  }

  /** The registers with a meaning of their own lie outside both files, as does everything beyond the page. */
  lemma SpecialOffsets(vectors: set<nat>, base: nat, offset: Word32, value: Word32)
    requires IsFile(base) && (offset == LVT_TIMER || offset == INITIAL_COUNT || offset == EOI || offset >= MMIO_SIZE)
    ensures AfterWrite(vectors, 4 * base, offset, value) == vectors
  {
  }

  lemma WriteRefines(s: Apic, offset: Word32, value: Word32)
    requires Shape(s)
    ensures AbstractStep(Abstract(s), WriteOp(offset, value), Abstract(Write(s, offset, value)))
  {
    if offset == LVT_TIMER || offset == INITIAL_COUNT || offset == EOI || offset >= MMIO_SIZE {
      SpecialOffsets(Vectors(s, IRR), IRR, offset, value);
      SpecialOffsets(Vectors(s, ISR), ISR, offset, value);
    }
    if offset < MMIO_SIZE {
      TimerBits(s.lvt);
      var d := s.(regs := s.regs[offset / 4 := value]);
      StoredRegister(s, IRR, offset, value);
      StoredRegister(s, ISR, offset, value);
      SameRegisters(d, Write(s, offset, value));
      EoiRetires(d);
    }
  }

  /** A register reads back the value last written at any byte offset of it, and no other register
    * changes, except that a write at the end-of-interrupt offset may also change in-service registers. */
  lemma ReadAfterWrite(s: Apic, offset: Word32, value: Word32, other: Word32)
    requires Shape(s)
    ensures offset != 0xB0 || !(0x100 <= other < 0x180 && other / 4 % 4 == 0) ==>
              Read(Write(s, offset, value), other)
              == if offset < 0x400 && other / 4 == offset / 4 then value else Read(s, other)
  {
    if offset == EOI && !InFile(ISR, other / 4) {
      var d := s.(regs := s.regs[offset / 4 := value]);
      EndChangesService(d, other / 4);
    }
  }

  lemma EndChangesService(s: Apic, w: nat)
    requires Shape(s) && !InFile(ISR, w)
    ensures w < REGS ==> EndOfInterrupt(s).regs[w] == s.regs[w]
  {
    if Top(s, ISR).Some? {
      assert RegOf(ISR, Top(s, ISR).value) != w;
    }
  }

  // ---- draining by priority ------------------------------------------------

  /** What repeated calls for the pending interrupt return until there is none. */
  function Drained(s: Apic): (vectors: seq<nat>)
    requires Shape(s)
    decreases |Vectors(s, IRR)|
  {
    if Top(s, IRR).None? then []
    else
      PendingShrinks(s);
      [Top(s, IRR).value] + Drained(TakePending(s))
  }

  /** The state after the drain. */
  function AfterDrain(s: Apic): (r: Apic)
    requires Shape(s)
    ensures Shape(r)
    decreases |Vectors(s, IRR)|
  {
    if Top(s, IRR).None? then s
    else
      PendingShrinks(s);
      AfterDrain(TakePending(s))
  }

  lemma PendingShrinks(s: Apic)
    requires Shape(s) && Top(s, IRR).Some?
    ensures Vectors(TakePending(s), IRR) == Vectors(s, IRR) - {Top(s, IRR).value}
    ensures Vectors(TakePending(s), ISR) == Vectors(s, ISR) + {Top(s, IRR).value}
    ensures IsMax(Top(s, IRR).value, Vectors(s, IRR))
    ensures |Vectors(TakePending(s), IRR)| < |Vectors(s, IRR)|
  {
    PendingMoves(s);
    var v := Top(s, IRR).value;
    var u :| IsMax(u, Vectors(s, IRR)) && Abstract(TakePending(s))
              == Abstract(s).(irr := Vectors(s, IRR) - {u}, isr := Vectors(s, ISR) + {u});
    assert u <= v && v <= u;
  }

  predicate StrictlyDecreasing(vectors: seq<nat>) {
    forall i, j :: 0 <= i < j < |vectors| ==> vectors[i] > vectors[j]
  }

  /** The sequence lists the set from the greatest vector down. */
  ghost predicate ListsDown(vectors: seq<nat>, s: set<nat>) {
    StrictlyDecreasing(vectors) && forall v :: v in vectors <==> v in s
  }

  lemma ListsDownFrom(v: nat, rest: seq<nat>, s: set<nat>)
    requires IsMax(v, s) && ListsDown(rest, s - {v})
    ensures ListsDown([v] + rest, s)
  {
    forall i, j | 0 <= i < j < |rest| + 1 ensures ([v] + rest)[i] > ([v] + rest)[j] {
      assert ([v] + rest)[j] == rest[j - 1] && rest[j - 1] in rest;
    }
  }

  /** With no new requests, the calls return exactly the requested vectors in strictly decreasing order
    * and then nothing, and every one of them is in service afterwards. */
  lemma {:induction false} DrainsByPriority(s: Apic)
    requires Shape(s)
    ensures ListsDown(Drained(s), Vectors(s, IRR))
    ensures Vectors(AfterDrain(s), IRR) == {} && Top(AfterDrain(s), IRR) == None
    ensures Vectors(AfterDrain(s), ISR) == Vectors(s, ISR) + Vectors(s, IRR)
    decreases |Vectors(s, IRR)|
  {
    TopIsMax(s, IRR);
    if Top(s, IRR).Some? {
      PendingShrinks(s);
      DrainsByPriority(TakePending(s));
      ListsDownFrom(Top(s, IRR).value, Drained(TakePending(s)), Vectors(s, IRR));
      MovedAcross(Vectors(s, ISR), Vectors(s, IRR), Top(s, IRR).value);
    }
  }

  lemma MovedAcross(a: set<nat>, b: set<nat>, v: nat)
    requires v in b
    ensures (a + {v}) + (b - {v}) == a + b
  {
  }

  /** `n` ends of interrupt. */
  function Ends(s: Apic, n: nat): (r: Apic)
    requires Shape(s)
    ensures Shape(r)
    decreases n
  {
    if n == 0 then s else Ends(EndOfInterrupt(s), n - 1)
  }

  /** The service routines return one by one: as many ends of interrupt as there are vectors in service
    * empty the in-service file, no fewer do, and requests are untouched. */
  lemma {:induction false} EndsEmptyService(s: Apic, n: nat)
    requires Shape(s)
    ensures Vectors(Ends(s, n), ISR) == {} <==> n >= |Vectors(s, ISR)|
    ensures Vectors(Ends(s, n), IRR) == Vectors(s, IRR)
    decreases n
  {
    if n > 0 {
      EoiRetires(s);
      EndsEmptyService(EndOfInterrupt(s), n - 1);
    }
  }

  ghost predicate AllBelow(s: set<nat>, v: nat) { forall u :: u in s ==> u < v }

  lemma RestoredIffHighest(s: set<nat>, v: nat, w: nat)
    requires IsMax(w, s + {v})
    ensures s + {v} - {w} == s <==> AllBelow(s, v)
  {
    assert v in s + {v};
    if v == w {
      assert s + {v} - {w} == s - {v};
    } else {
      assert w in s && w > v;
    }
  }

  lemma EndRemovesMax(s: Apic) returns (w: nat)
    requires Shape(s) && Vectors(s, ISR) != {}
    ensures IsMax(w, Vectors(s, ISR))
    ensures Vectors(EndOfInterrupt(s), ISR) == Vectors(s, ISR) - {w}
    ensures Vectors(EndOfInterrupt(s), IRR) == Vectors(s, IRR)
  {
    EoiRetires(s);
    w :| IsMax(w, Vectors(s, ISR)) && Abstract(EndOfInterrupt(s)) == Abstract(s).(isr := Vectors(s, ISR) - {w});
  }

  /** Taking an interrupt and then ending one restores the in-service set exactly if the vector taken
    * is above everything in service: the code does not hold back a request of lower priority. */
  lemma TakeThenEnd(s: Apic)
    requires Shape(s) && Top(s, IRR).Some?
    ensures var v, d := Top(s, IRR).value, EndOfInterrupt(TakePending(s));
            && Vectors(d, IRR) == Vectors(s, IRR) - {v}
            && (Vectors(d, ISR) == Vectors(s, ISR) <==> AllBelow(Vectors(s, ISR), v))
  {
    PendingShrinks(s);
    var w := EndRemovesMax(TakePending(s));
    RestoredIffHighest(Vectors(s, ISR), Top(s, IRR).value, w);
  }
}

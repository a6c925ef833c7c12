/** The APIC shadow as it is stored: a register array and timer fields changed in place by each call. */
module ApicStore {
  import opened Words
  import opened Bits
  import opened A = Apic
  import opened ApicTimer

  class ApicShadow {
    const regs: array<Word32>
    var timerEnabled: bool
    var initialCount: Word32
    var currentCount: Word32
    var lvt: Word32

    ghost predicate Valid() { regs.Length == REGS }

    ghost function State(): (s: A.Apic)
      requires Valid()
      reads this, regs
      ensures Shape(s)
    {
      A.Apic(regs[..], timerEnabled, initialCount, currentCount, lvt)
    }

    /** The shadow starts with no request, nothing in service, and a masked, stopped timer. */
    constructor (apicId: Word32)
      ensures Valid() && fresh(regs)
      ensures Vectors(State(), IRR) == {} && Vectors(State(), ISR) == {}
      ensures lvt == 0x1_0000 && !timerEnabled && initialCount == currentCount == 0 && TimerInv(State())
      ensures Read(State(), 0x20) == apicId % 0x100 * 0x100_0000
      ensures Read(State(), 0x30) == 0x50014 && Read(State(), 0xF0) == 0xFF
      ensures forall i :: 0 <= i < REGS && i != 8 && i != 12 && i != 60 ==> regs[i] == 0
    {
      regs := new Word32[REGS](_ => 0);
      timerEnabled, initialCount, currentCount, lvt := false, 0, 0, 0x1_0000;
      new;
      regs[8] := apicId % 0x100 * 0x100_0000;
      regs[12] := 0x50014;
      regs[60] := 0xFF;
      forall v: nat | v < 256 ensures !Holds(State(), IRR, v) && !Holds(State(), ISR, v) {
        ZeroHasNoBits(v % 32);
        assert regs[RegOf(IRR, v)] == 0 && regs[RegOf(ISR, v)] == 0;
      }
    }

    method ReadRegister(offset: Word32) returns (value: Word32)
      requires Valid()
      ensures value == Read(State(), offset)
    {
      if offset >= MMIO_SIZE {
        return 0;
      }
      value := regs[offset / 4];
    }

    /** The scan from register 7 down to 0 of one file. */
    method FindTop(base: nat) returns (i: int)
      requires Valid() && IsFile(base)
      ensures i == TopReg(State(), base, |State().regs| / 32)
    {
      i := 7;
      while i >= 0
        invariant -1 <= i < 8
        invariant TopReg(State(), base, i + 1) == TopReg(State(), base, |State().regs| / 32)
        decreases i
      {
        if regs[base + 4 * i] != 0 {
          return;
        }
        i := i - 1;
      }
    }

    method InjectInterrupt(vector: Word32) returns (accepted: Word32)
      requires Valid()
      modifies regs
      ensures State() == Inject(old(State()), vector)
      ensures accepted == if vector < 1024 then vector else 0
    {
      var i := (0x200 + vector / 32 * 16) / 4;
      assert i == RegOf(IRR, vector);
      if i < REGS {
        regs[i] := SetBit32(regs[i], vector % 32);
        return vector;
      }
      return 0;
    }

    method EndInterrupt()
      requires Valid()
      modifies regs
      ensures State() == EndOfInterrupt(old(State()))
    {
      var i := FindTop(ISR);
      if i >= 0 {
        var w := ISR + 4 * i;
        var bit := Msb32(regs[w]);
        Compose(i, bit);
        regs[w] := ClearBit32(regs[w], bit);
      }
    }

    method GetPending() returns (found: bool, vector: nat)
      requires Valid()
      modifies regs
      ensures State() == TakePending(old(State()))
      ensures found == (Vectors(old(State()), IRR) != {})
      ensures found ==> IsMax(vector, Vectors(old(State()), IRR))
    {
      ghost var s := State();
      TopIsMax(s, IRR);
      var i := FindTop(IRR);
      found, vector := i >= 0, 0;
      if found {
        var bit := Msb32(regs[IRR + 4 * i]);
        vector := 32 * i + bit;
        TopIs(s, i, vector);
        TakeIs(s, vector);
        MoveToService(i, bit, vector);
      }
    }

    /** The request bit is cleared and the same bit of the in-service file set. */
    method MoveToService(i: nat, bit: nat, ghost v: nat)
      requires Valid() && i < 8 && bit < 32 && v == 32 * i + bit && v < 256
      modifies regs
      ensures State() == Raise(Lower(old(State()), IRR, v), ISR, v)
    {
      Compose(i, bit);
      regs[IRR + 4 * i] := ClearBit32(regs[IRR + 4 * i], bit);
      regs[ISR + 4 * i] := SetBit32(regs[ISR + 4 * i], bit);
    }

    method WriteRegister(offset: Word32, value: Word32)
      requires Valid()
      modifies this, regs
      ensures State() == Write(old(State()), offset, value)
    {
      if offset >= MMIO_SIZE {
        return;
      }
      regs[offset / 4] := value;
      if offset == LVT_TIMER {
        lvt := value;
      } else if offset == INITIAL_COUNT {
        initialCount := value;
        currentCount := value;
        timerEnabled := value > 0 && !Masked(lvt);
      } else if offset == EOI {
        EndInterrupt();
      }
    }

    method TimerTick()
      requires Valid()
      modifies this, regs
      ensures State() == Tick(old(State()))
      ensures old(TimerInv(State())) ==> TimerInv(State())
    {
      if timerEnabled && currentCount > 0 {
        currentCount := currentCount - 1;
        if currentCount == 0 {
          var vector := lvt % 256;
          if vector >= 16 {
            var accepted := InjectInterrupt(vector);
          }
          if Periodic(lvt) {
            currentCount := initialCount;
          } else {
            timerEnabled := false;
          }
        }
      }
    }

    /** Service of a guest access to the APIC page. */
    method HandleMmio(address: nat, isWrite: bool, value: Word) returns (handled: bool, result: Word)
      requires Valid()
      modifies this, regs
      ensures handled == (0xFEE0_0000 <= address < 0xFEE0_1000)
      ensures State()
              == if handled && isWrite then Write(old(State()), address - 0xFEE0_0000, value % W32) else old(State())
      ensures result == if handled && !isWrite then Read(old(State()), address - 0xFEE0_0000) else value
    {
      handled, result := 0xFEE0_0000 <= address < 0xFEE0_1000, value;
      if handled {
        if isWrite {
          WriteRegister(address - 0xFEE0_0000, value % W32);
        } else {
          result := ReadRegister(address - 0xFEE0_0000);
        }
      }
    }
  }

  lemma TopIs(s: A.Apic, i: nat, v: nat)
    requires Shape(s) && i == TopReg(s, IRR, |s.regs| / 32) && v == 32 * i + Msb32(s.regs[IRR + 4 * i])
    ensures Top(s, IRR) == Some(v)
  {
  }

  /** Taking the pending interrupt, given its vector. */
  lemma TakeIs(s: A.Apic, v: nat)
    requires Shape(s) && v < 256 && Top(s, IRR) == Some(v)
    ensures TakePending(s) == Raise(Lower(s, IRR, v), ISR, v)
  {
  }
}

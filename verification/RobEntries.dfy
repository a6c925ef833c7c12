/** The reorder buffer's entries field by field: what allocation writes, what retirement changes, and where
  * the entry of a handle in flight comes from. */
module RobEntries {
  import opened Words
  import opened RobQueue

  /** The entry records this allocation. */
  predicate Records(e: RobEntry, rip: Word, start: Word, count: Word32, tick: Word, h: Handle) {
    && e.rip == rip && e.microOpStart == start && e.microOpCount == count
    && e.state == Allocated && e.allocTick == tick && e.retireTick == 0
    && e.bankId == h.bank && e.slotInBank == h.slot
  }

  /** If some bank holds fewer than 112 entries, allocation appends one that records the caller's data and the
    * clock, in the slot behind the bank's last; the search starts in the following bank next time. */
  lemma AllocateResults(rob: Rob, rip: Word, start: Word, count: Word32)
    requires Inv(rob) && exists b :: 0 <= b < 7 && |rob.banks[b].queue| < 112
    ensures var (h, next) := Allocate(rob, rip, start, count);
            && h.Some? && h.value.bank < 7 && Inv(next) && Live(next, h.value)
            && var bank := rob.banks[h.value.bank];
               var after := next.banks[h.value.bank].queue;
               && |bank.queue| < 112 && h.value.slot == (bank.head + |bank.queue|) % 112
               && |after| == |bank.queue| + 1 && after[..|bank.queue|] == bank.queue
               && Records(after[|bank.queue|], rip, start, count, rob.cycle, h.value)
               && Records(EntryOf(next, h.value), rip, start, count, rob.cycle, h.value)
               && next.nextBank == (if h.value.bank == 6 then 0 else h.value.bank + 1)
               && next.allocations == (rob.allocations + 1) % 0x1_0000_0000_0000_0000
               && next.retirements == rob.retirements && next.stalls == rob.stalls && next.cycle == rob.cycle
  {
    AllocateSpec(rob, rip, start, count);
    var b :| 0 <= b < 7 && |rob.banks[b].queue| < 112;
    assert !Full(rob.banks, b);
  }

  /** If all seven banks hold 112, allocation gives nothing and counts a stall. */
  lemma StallResults(rob: Rob, rip: Word, start: Word, count: Word32)
    requires Inv(rob) && forall b :: 0 <= b < 7 ==> |rob.banks[b].queue| == 112
    ensures var (h, next) := Allocate(rob, rip, start, count);
            && h.None? && next.banks == rob.banks && next.nextBank == rob.nextBank && next.cycle == rob.cycle
            && next.stalls == (rob.stalls + 1) % 0x1_0000_0000_0000_0000
            && next.allocations == rob.allocations && next.retirements == rob.retirements
  {
    assert forall b :: 0 <= b < 7 ==> Full(rob.banks, b);
  }

  /** From its allocation until its retirement a handle stands for the data it was allocated with. */
  lemma RecordsKept(rob: Rob, rip: Word, start: Word, count: Word32, h: Handle, ops: seq<Op>)
    requires Inv(rob) && Allocate(rob, rip, start, count).0 == Some(h) && DoRetire(h) !in ops
    ensures var end := Run(Apply(rob, DoAllocate(rip, start, count)), ops);
            Live(end, h) && Records(EntryOf(end, h), rip, start, count, rob.cycle, h)
  {
    AllocateSpec(rob, rip, start, count);
    LiveHandleKept(Apply(rob, DoAllocate(rip, start, count)), ops, h);
  }

  lemma {:induction false} RunLast(rob: Rob, ops: seq<Op>, op: Op)
    requires Inv(rob)
    ensures Run(rob, ops + [op]) == Apply(Run(rob, ops), op)
    decreases |ops|
  {
    ApplyKeepsInv(rob, op);
    if ops == [] {
      assert ([] + [op])[1..] == [];
      assert Run(Apply(rob, op), []) == Apply(rob, op);
    } else {
      assert (ops + [op])[1..] == ops[1..] + [op];
      ApplyKeepsInv(rob, ops[0]);
      RunLast(Apply(rob, ops[0]), ops[1..], op);
    }
  }

  /** Step `i` of the run is the allocation that returned this handle. */
  ghost predicate Allocates(rob: Rob, ops: seq<Op>, i: nat, h: Handle)
    requires Inv(rob) && i < |ops|
  {
    ops[i].DoAllocate? && Allocate(Run(rob, ops[..i]), ops[i].rip, ops[i].start, ops[i].count).0 == Some(h)
  }

  /** What a handle in flight stands for: over every run from the empty distributor there is exactly the one
    * allocation that returned it and after which it was not retired, and its entry records that allocation. */
  lemma {:induction false} LiveOrigin(ops: seq<Op>, h: Handle) returns (i: nat)
    requires Inv(EMPTY) && Live(Run(EMPTY, ops), h)
    ensures i < |ops| && Allocates(EMPTY, ops, i, h) && DoRetire(h) !in ops[i + 1..]
    ensures Records(EntryOf(Run(EMPTY, ops), h), ops[i].rip, ops[i].start, ops[i].count, Run(EMPTY, ops[..i]).cycle, h)
    decreases |ops|
  {
    EmptyInv();
    if ops == [] {
      LiveSetIs(EMPTY);
      assert false;
    }
    var n := |ops| - 1;
    var before := Run(EMPTY, ops[..n]);
    assert ops == ops[..n] + [ops[n]];
    RunLast(EMPTY, ops[..n], ops[n]);
    i := n;
    if !Allocates(EMPTY, ops, n, h) {
      LiveBefore(before, ops[n], h);
      i := LiveOrigin(ops[..n], h);
      assert ops[..n][..i] == ops[..i];
      assert ops[i + 1..] == ops[..n][i + 1..] + [ops[n]];
    } else {
      AllocateSpec(before, ops[n].rip, ops[n].start, ops[n].count);
    }
  }

  lemma LiveBefore(rob: Rob, op: Op, h: Handle)
    requires Inv(rob) && Inv(Apply(rob, op)) && Live(Apply(rob, op), h)
    requires op.DoAllocate? ==> Allocate(rob, op.rip, op.start, op.count).0 != Some(h)
    ensures op != DoRetire(h) && Live(rob, h) && EntryOf(Apply(rob, op), h) == EntryOf(rob, h)
  {
    match op
    case DoAllocate(rip, start, count) => AllocateSpec(rob, rip, start, count);
    case DoRetire(g) => RetireSpec(rob, g);
    case DoTick =>
  }

  // ---- retirement ----------------------------------------------------------

  /** The same entry, finished at this tick. */
  predicate FinishedAt(e: RobEntry, was: RobEntry, tick: Word) {
    && e.state == Retired && e.retireTick == tick
    && e.rip == was.rip && e.microOpStart == was.microOpStart && e.microOpCount == was.microOpCount
    && e.allocTick == was.allocTick && e.bankId == was.bankId && e.slotInBank == was.slotInBank
  }

  /** Retirement is refused, with nothing changed, in exactly two ways: the handle is out of range, or its slot
    * holds no entry in flight. */
  lemma RetireRefused(rob: Rob, h: Handle)
    requires Inv(rob) && !Live(rob, h)
    ensures Retire(rob, h) == (if h.bank >= 7 || h.slot >= 112 then InvalidParameter else NotReady, rob)
  {
  }

  function Ticks(ops: seq<Op>): nat {
    if ops == [] then 0 else (if ops[0].DoTick? then 1 else 0) + Ticks(ops[1..])
  }

  /** The clock counts the ticks and nothing else moves it. */
  lemma {:induction false} ClockCountsTicks(rob: Rob, ops: seq<Op>)
    requires Inv(rob)
    ensures Run(rob, ops).cycle == (rob.cycle + Ticks(ops)) % 0x1_0000_0000_0000_0000
    decreases |ops|
  {
    if ops != [] {
      ApplyKeepsInv(rob, ops[0]);
      OneTick(rob, ops[0]);
      ClockCountsTicks(Apply(rob, ops[0]), ops[1..]);
      TickWraps(rob.cycle, Ticks(ops[1..]));
    }
  }

  lemma OneTick(rob: Rob, op: Op)
    requires Inv(rob)
    ensures Apply(rob, op).cycle == if op.DoTick? then (rob.cycle + 1) % 0x1_0000_0000_0000_0000 else rob.cycle
    ensures op.DoTick? ==> Apply(rob, op) == rob.(cycle := (rob.cycle + 1) % 0x1_0000_0000_0000_0000)
  {
  }

  lemma TickWraps(cycle: Word, n: nat)
    ensures ((cycle + 1) % W64 + n) % W64 == (cycle + (1 + n)) % W64
  {
  }

  /** How far behind the oldest entry of its bank a handle's entry is. */
  function Behind(rob: Rob, h: Handle): nat
    requires Inv(rob) && ValidHandle(h)
  {
    (h.slot + 112 - rob.banks[h.bank].head) % 112
  }

  lemma BehindIsPos(rob: Rob, h: Handle)
    requires Inv(rob) && ValidHandle(h)
    ensures Behind(rob, h) == Pos(rob.banks[h.bank].head, h.slot)
  {
  }

  /** Retiring a handle in flight touches its own bank, with its entry in place or released, and one counter. */
  lemma RetireTouches(rob: Rob, h: Handle)
    requires Inv(rob) && Live(rob, h)
    ensures var (status, next) := Retire(rob, h);
            && status == Success && |next.banks| == 7
            && (forall b :: 0 <= b < 7 && b != h.bank ==> next.banks[b] == rob.banks[b])
            && next.retirements == (rob.retirements + 1) % 0x1_0000_0000_0000_0000
            && next.allocations == rob.allocations && next.stalls == rob.stalls && next.nextBank == rob.nextBank
            && next.cycle == rob.cycle
  {
  }

  /** Retiring an entry behind an unfinished one marks it finished at this tick and releases nothing. */
  lemma RetireBehind(rob: Rob, h: Handle)
    requires Inv(rob) && Live(rob, h) && Behind(rob, h) > 0
    ensures var bank, after, k := rob.banks[h.bank], Retire(rob, h).1.banks[h.bank], Behind(rob, h);
            && k < |bank.queue| == |after.queue| && bank.queue[k].slotInBank == h.slot && after.head == bank.head
            && FinishedAt(after.queue[k], bank.queue[k], rob.cycle)
            && forall j :: 0 <= j < |bank.queue| && j != k ==> after.queue[j] == bank.queue[j]
  {
    BehindIsPos(rob, h);
  }

  /** The first `n` entries of a bank are released and they are exactly the oldest one and the finished ones
    * right behind it. */
  predicate Releases(bank: Bank, after: Bank, n: nat)
    requires n <= |bank.queue| && bank.head < 112
  {
    && 0 < n && after.queue == bank.queue[n..] && after.head == (bank.head + n) % 112
    && (forall j :: 0 < j < n ==> bank.queue[j].state == Retired)
    && (n < |bank.queue| ==> bank.queue[n].state == Allocated)
  }

  lemma FrontReleases(bank: Bank, b: nat, slot: nat, tick: Word) returns (n: nat)
    requires BankInv(bank, b) && slot < ENTRIES && InFlight(bank, slot) && Pos(bank.head, slot) == 0
    ensures n <= |bank.queue| && Releases(bank, Released(FinishIn(bank, slot, tick)), n)
  {
    var finished := FinishIn(bank, slot, tick);
    n := ReleasedIsSuffix(finished, b);
    assert finished.queue[0].state == Retired;
    assert n > 0;
    assert finished.queue[n..] == bank.queue[n..];
    assert forall j :: 0 < j < n ==> bank.queue[j] == finished.queue[j];
  }

  /** Retiring the oldest entry releases it together with the finished entries that follow it. */
  lemma RetireOldest(rob: Rob, h: Handle) returns (n: nat)
    requires Inv(rob) && Live(rob, h) && Behind(rob, h) == 0
    ensures var bank, after := rob.banks[h.bank], Retire(rob, h).1.banks[h.bank];
            n <= |bank.queue| && Releases(bank, after, n)
  {
    BehindIsPos(rob, h);
    n := FrontReleases(rob.banks[h.bank], h.bank, h.slot, rob.cycle);
  }
}

/**
 * The reorder-buffer distributor seen as bounded queues: seven banks, each a queue of at most
 * 112 entries whose front is always still in flight. Entries complete in any order and leave in order.
 */
module RobQueue {
  import opened Words

  const BANKS := 7
  const ENTRIES := 112

  datatype EntryState = Free | Allocated | Retired

  datatype RobEntry = RobEntry(
    rip: Word, microOpStart: Word, microOpCount: Word32, state: EntryState,
    allocTick: Word, retireTick: Word, bankId: nat, slotInBank: nat)

  /** What a caller holds between allocation and retirement. */
  datatype Handle = Handle(bank: nat, slot: nat)

  /** A bank as a queue; entry k of the queue sits in slot head + k, wrapping around. */
  datatype Bank = Bank(head: nat, queue: seq<RobEntry>)

  datatype Rob = Rob(
    banks: seq<Bank>, nextBank: nat,
    allocations: Word, retirements: Word, stalls: Word, cycle: Word)

  datatype Status = Success | NotReady | InvalidParameter | OutOfResources

  /** Slot of the k-th queue entry. */
  function At(head: nat, k: nat): nat
    requires head < ENTRIES && k <= ENTRIES
  {
    if head + k < ENTRIES then head + k else head + k - ENTRIES
  }

  /** Queue position of a slot. */
  function Pos(head: nat, slot: nat): nat
    requires head < ENTRIES && slot < ENTRIES
  {
    if slot >= head then slot - head else slot + ENTRIES - head
  }

  predicate BankInv(bank: Bank, b: nat) {
    && bank.head < ENTRIES && |bank.queue| <= ENTRIES
    && (forall k :: 0 <= k < |bank.queue| ==>
          && !bank.queue[k].state.Free?
          && bank.queue[k].bankId == b && bank.queue[k].slotInBank == At(bank.head, k))
  }

  /** A nonempty bank has not yet finished its oldest entry. */
  predicate FrontInFlight(bank: Bank) { bank.queue != [] ==> bank.queue[0].state.Allocated? }

  predicate Inv(rob: Rob) {
    && |rob.banks| == BANKS && rob.nextBank < BANKS
    && forall b :: 0 <= b < BANKS ==> BankInv(rob.banks[b], b) && FrontInFlight(rob.banks[b])
  }

  const EMPTY := Rob(seq(BANKS, _ => Bank(0, [])), 0, 0, 0, 0, 0)

  // ---- operations ----------------------------------------------------------

  /** How far ahead of bank `start` bank `b` comes in cyclic order. */
  function Ahead(start: nat, b: nat): nat
    requires start < BANKS && b < BANKS
  {
    if b >= start then b - start else b + BANKS - start
  }

  /** Unless the search is back at its start it is one step further. */
  lemma AheadNext(start: nat, b: nat)
    requires start < BANKS && b < BANKS && (b + 1) % BANKS != start
    ensures Ahead(start, (b + 1) % BANKS) == Ahead(start, b) + 1
  {
  }

  predicate Full(banks: seq<Bank>, b: nat)
    requires b < |banks|
  {
    |banks[b].queue| >= ENTRIES
  }

  /** The search from bank `b` on, which gives up when it is back at `start`. */
  function RoomFrom(banks: seq<Bank>, start: nat, b: nat): (r: Option<nat>)
    requires |banks| == BANKS && start < BANKS && b < BANKS
    ensures r.None? ==> forall c :: 0 <= c < BANKS && Ahead(start, b) <= Ahead(start, c) ==> Full(banks, c)
    ensures r.Some? ==>
              && r.value < BANKS && !Full(banks, r.value)
              && forall c :: 0 <= c < BANKS && Ahead(start, b) <= Ahead(start, c) < Ahead(start, r.value)
                   ==> Full(banks, c)
    decreases BANKS - Ahead(start, b)
  {
    if !Full(banks, b) then Some(b)
    else if (b + 1) % BANKS == start then None
    else RoomFrom(banks, start, (b + 1) % BANKS)
  }

  /** The first bank with room in cyclic order from `start`. */
  function FirstRoom(banks: seq<Bank>, start: nat): (r: Option<nat>)
    requires |banks| == BANKS && start < BANKS
    ensures r.None? <==> forall b :: 0 <= b < BANKS ==> Full(banks, b)
    ensures r.Some? ==>
              && r.value < BANKS && !Full(banks, r.value)
              && forall b :: 0 <= b < BANKS && Ahead(start, b) < Ahead(start, r.value) ==> Full(banks, b)
  {
    RoomFrom(banks, start, start)
  }

  function NewEntry(rip: Word, start: Word, count: Word32, tick: Word, b: nat, slot: nat): RobEntry {
    RobEntry(rip, start, count, Allocated, tick, 0, b, slot)
  }

  function NextHandle(rob: Rob, b: nat): Handle
    requires Inv(rob) && b < BANKS
  {
    Handle(b, At(rob.banks[b].head, |rob.banks[b].queue|))
  }

  /** The state after a new entry has been placed in bank `b`. */
  function Placed(rob: Rob, b: nat, rip: Word, start: Word, count: Word32): Rob
    requires Inv(rob) && b < BANKS
  {
    var bank := rob.banks[b];
    var entry := NewEntry(rip, start, count, rob.cycle, b, NextHandle(rob, b).slot);
    rob.(banks := rob.banks[b := bank.(queue := bank.queue + [entry])],
         nextBank := (b + 1) % BANKS, allocations := AddW(rob.allocations, 1))
  }

  /** The handle, if any, and the new state. */
  function Allocate(rob: Rob, rip: Word, start: Word, count: Word32): (Option<Handle>, Rob)
    requires Inv(rob)
  {
    match FirstRoom(rob.banks, rob.nextBank)
    case None => (None, rob.(stalls := AddW(rob.stalls, 1)))
    case Some(b) => (Some(NextHandle(rob, b)), Placed(rob, b, rip, start, count))
  }

  function Popped(bank: Bank): Bank
    requires bank.head < ENTRIES && bank.queue != []
  {
    Bank(At(bank.head, 1), bank.queue[1..])
  }

  /** Finished entries at the front leave the queue. */
  function Released(bank: Bank): Bank
    requires bank.head < ENTRIES
    decreases |bank.queue|
  {
    if bank.queue != [] && bank.queue[0].state.Retired? then
      Released(Popped(bank))
    else bank
  }

  function Finish(entry: RobEntry, tick: Word): RobEntry { entry.(state := Retired, retireTick := tick) }

  /** The entry a slot holds, if the slot is inside the queue. */
  function Lookup(bank: Bank, slot: nat): Option<RobEntry>
    requires bank.head < ENTRIES && slot < ENTRIES
  {
    var k := Pos(bank.head, slot);
    if k < |bank.queue| then Some(bank.queue[k]) else None
  }

  predicate InFlight(bank: Bank, slot: nat)
    requires bank.head < ENTRIES && slot < ENTRIES
  {
    var e := Lookup(bank, slot);
    e.Some? && e.value.state.Allocated?
  }

  function FinishIn(bank: Bank, slot: nat, tick: Word): Bank
    requires bank.head < ENTRIES && slot < ENTRIES && InFlight(bank, slot)
  {
    var k := Pos(bank.head, slot);
    bank.(queue := bank.queue[k := Finish(bank.queue[k], tick)])
  }

  function Retire(rob: Rob, h: Handle): (Status, Rob)
    requires Inv(rob)
  {
    if h.bank >= BANKS || h.slot >= ENTRIES then (InvalidParameter, rob)
    else
      var bank := rob.banks[h.bank];
      if !InFlight(bank, h.slot) then (NotReady, rob)
      else
        (Success,
         rob.(banks := rob.banks[h.bank := Released(FinishIn(bank, h.slot, rob.cycle))],
              retirements := AddW(rob.retirements, 1)))
  }

  function Tick(rob: Rob): Rob { rob.(cycle := AddW(rob.cycle, 1)) }

  // ---- every step keeps the invariant --------------------------------------

  lemma {:induction false} ReleasedInv(bank: Bank, b: nat)
    requires BankInv(bank, b)
    ensures BankInv(Released(bank), b) && FrontInFlight(Released(bank))
    decreases |bank.queue|
  {
    if bank.queue != [] && bank.queue[0].state.Retired? {
      var rest := Popped(bank);
      forall k | 0 <= k < |rest.queue| ensures rest.queue[k].slotInBank == At(rest.head, k) {
        assert rest.queue[k] == bank.queue[k + 1];
      }
      ReleasedInv(rest, b);
    }
  }

  /** Releasing the front removes finished entries only. */
  lemma {:induction false} ReleasedLookup(bank: Bank, b: nat, slot: nat)
    requires BankInv(bank, b) && slot < ENTRIES
    ensures Released(bank).head < ENTRIES
    ensures Lookup(Released(bank), slot) == Lookup(bank, slot)
            || (Lookup(Released(bank), slot) == None
                && Lookup(bank, slot).Some? && Lookup(bank, slot).value.state.Retired?)
    decreases |bank.queue|
  {
    if bank.queue != [] && bank.queue[0].state.Retired? {
      var rest := Popped(bank);
      forall k | 0 <= k < |rest.queue| ensures rest.queue[k].slotInBank == At(rest.head, k) {
        assert rest.queue[k] == bank.queue[k + 1];
      }
      ReleasedLookup(rest, b, slot);
      if slot != bank.head {
        assert Pos(bank.head, slot) == Pos(rest.head, slot) + 1;
      }
    }
  }

  predicate ValidHandle(h: Handle) { h.bank < BANKS && h.slot < ENTRIES }

  predicate Live(rob: Rob, h: Handle)
    requires Inv(rob)
  {
    ValidHandle(h) && InFlight(rob.banks[h.bank], h.slot)
  }

  function EntryOf(rob: Rob, h: Handle): RobEntry
    requires Inv(rob) && Live(rob, h)
  {
    Lookup(rob.banks[h.bank], h.slot).value
  }

  lemma PlacedSpec(rob: Rob, b: nat, rip: Word, start: Word, count: Word32)
    requires Inv(rob) && b < BANKS && !Full(rob.banks, b)
    ensures var h, next := NextHandle(rob, b), Placed(rob, b, rip, start, count);
            && Inv(next) && ValidHandle(h) && Lookup(rob.banks[b], h.slot) == None
            && Live(next, h) && EntryOf(next, h) == NewEntry(rip, start, count, rob.cycle, b, h.slot)
            && forall g :: ValidHandle(g) && g != h ==>
                 Lookup(next.banks[g.bank], g.slot) == Lookup(rob.banks[g.bank], g.slot)
  {
    var bank := rob.banks[b];
    var slot := NextHandle(rob, b).slot;
    assert Pos(bank.head, slot) == |bank.queue|;
    forall s | 0 <= s < ENTRIES && s != slot
      ensures Lookup(Placed(rob, b, rip, start, count).banks[b], s) == Lookup(bank, s)
    {
      assert Pos(bank.head, s) != |bank.queue|;
    }
  }

  /** Allocation appends to the first bank with room in cyclic order, or stalls when every bank is
    * full; the handle was not in use and holds the caller's data, and every other slot is untouched. */
  lemma AllocateSpec(rob: Rob, rip: Word, start: Word, count: Word32)
    requires Inv(rob)
    ensures var (h, next) := Allocate(rob, rip, start, count);
            && Inv(next)
            && (h.None? <==> forall b :: 0 <= b < BANKS ==> Full(rob.banks, b))
            && (h.None? ==> next == rob.(stalls := AddW(rob.stalls, 1)))
            && (h.Some? ==>
                  && ValidHandle(h.value) && Lookup(rob.banks[h.value.bank], h.value.slot) == None
                  && !Full(rob.banks, h.value.bank)
                  && (forall b :: 0 <= b < BANKS && Ahead(rob.nextBank, b) < Ahead(rob.nextBank, h.value.bank)
                                  ==> Full(rob.banks, b))
                  && Live(next, h.value)
                  && EntryOf(next, h.value) == NewEntry(rip, start, count, rob.cycle, h.value.bank, h.value.slot)
                  && forall g :: ValidHandle(g) && g != h.value ==>
                       Lookup(next.banks[g.bank], g.slot) == Lookup(rob.banks[g.bank], g.slot))
  {
    var room := FirstRoom(rob.banks, rob.nextBank);
    if room.Some? {
      PlacedSpec(rob, room.value, rip, start, count);
    }
  }

  /** Retiring succeeds exactly for handles in flight; then that handle is no longer in flight and
    * every other in-flight handle keeps its entry. */
  lemma RetireSpec(rob: Rob, h: Handle)
    requires Inv(rob)
    ensures var (status, next) := Retire(rob, h);
            && Inv(next)
            && (status.Success? <==> Live(rob, h))
            && (!status.Success? ==> next == rob)
            && (status.Success? ==> !Live(next, h))
            && (forall g :: g != h ==> (Live(next, g) <==> Live(rob, g)))
            && (forall g :: g != h && Live(rob, g) ==> EntryOf(next, g) == EntryOf(rob, g))
  {
    if Live(rob, h) {
      var (status, next) := Retire(rob, h);
      var bank := rob.banks[h.bank];
      var finished := FinishIn(bank, h.slot, rob.cycle);
      ReleasedInv(finished, h.bank);
      forall s | 0 <= s < ENTRIES
        ensures InFlight(next.banks[h.bank], s) <==> (s != h.slot && InFlight(bank, s))
        ensures s != h.slot && InFlight(bank, s) ==> Lookup(next.banks[h.bank], s) == Lookup(bank, s)
      {
        ReleasedLookup(finished, h.bank, s);
        if s != h.slot {
          assert Pos(bank.head, s) != Pos(bank.head, h.slot);
        }
      }
    }
  }

  // ---- runs ----------------------------------------------------------------

  datatype Op = DoAllocate(rip: Word, start: Word, count: Word32) | DoRetire(h: Handle) | DoTick

  function Apply(rob: Rob, op: Op): Rob
    requires Inv(rob)
  {
    match op
    case DoAllocate(rip, start, count) => Allocate(rob, rip, start, count).1
    case DoRetire(h) => Retire(rob, h).1
    case DoTick => Tick(rob)
  }

  lemma ApplyKeepsInv(rob: Rob, op: Op)
    requires Inv(rob)
    ensures Inv(Apply(rob, op))
  {
    match op
    case DoAllocate(rip, start, count) => AllocateSpec(rob, rip, start, count);
    case DoRetire(h) => RetireSpec(rob, h);
    case DoTick =>
  }

  /** The handles in flight. */
  ghost function LiveSet(rob: Rob): set<Handle>
    requires Inv(rob)
  {
    set b: nat, s: nat | b < BANKS && s < ENTRIES && Live(rob, Handle(b, s)) :: Handle(b, s)
  }

  lemma LiveSetIs(rob: Rob)
    requires Inv(rob)
    ensures forall h :: h in LiveSet(rob) <==> Live(rob, h)
  {
    forall h | Live(rob, h) ensures h in LiveSet(rob) {
      assert h == Handle(h.bank, h.slot);
    }
  }

  /** How each step changes the set of handles in flight. */
  lemma ApplyLiveSet(rob: Rob, op: Op)
    requires Inv(rob)
    ensures Inv(Apply(rob, op))
    ensures var next := Apply(rob, op);
            match op
            case DoAllocate(rip, start, count) =>
              var h := Allocate(rob, rip, start, count).0;
              if h.None? then LiveSet(next) == LiveSet(rob)
              else h.value !in LiveSet(rob) && LiveSet(next) == LiveSet(rob) + {h.value}
            case DoRetire(h) => LiveSet(next) == LiveSet(rob) - {h}
            case DoTick => LiveSet(next) == LiveSet(rob)
  {
    ApplyKeepsInv(rob, op);
    LiveSetIs(rob);
    LiveSetIs(Apply(rob, op));
    match op
    case DoAllocate(rip, start, count) =>
      AllocateSpec(rob, rip, start, count);
    case DoRetire(h) => RetireSpec(rob, h);
    case DoTick =>
  }

  /** The counters differ by the number of handles in flight, modulo their 64-bit width. */
  ghost predicate Conserved(rob: Rob)
    requires Inv(rob)
  {
    SubW(rob.allocations, rob.retirements) == |LiveSet(rob)| % W64
  }

  lemma NextModulo(n: nat)
    ensures (n + 1) % W64 == if n % W64 == W64 - 1 then 0 else n % W64 + 1
  {
    var q := n / W64;
    assert n == W64 * q + n % W64;
  }

  lemma CountUp(a: Word, r: Word, n: nat)
    ensures SubW(a, r) == n % W64 ==> SubW(AddW(a, 1), r) == (n + 1) % W64
    ensures SubW(a, r) == (n + 1) % W64 ==> SubW(a, AddW(r, 1)) == n % W64
  {
    NextModulo(n);
    assert AddW(a, 1) == if a == W64 - 1 then 0 else a + 1;
    assert AddW(r, 1) == if r == W64 - 1 then 0 else r + 1;
    assert SubW(a, r) == if a >= r then a - r else a - r + W64;
  }

  lemma AllocateCount(rob: Rob, op: Op)
    requires Inv(rob) && op.DoAllocate?
    ensures var (h, next) := Allocate(rob, op.rip, op.start, op.count);
            && Inv(next) && next.retirements == rob.retirements
            && next.allocations == (if h.Some? then AddW(rob.allocations, 1) else rob.allocations)
            && |LiveSet(next)| == |LiveSet(rob)| + (if h.Some? then 1 else 0)
  {
    ApplyLiveSet(rob, op);
  }

  lemma RetireCount(rob: Rob, h: Handle)
    requires Inv(rob)
    ensures var (status, next) := Retire(rob, h);
            && Inv(next) && next.allocations == rob.allocations
            && next.retirements == (if status.Success? then AddW(rob.retirements, 1) else rob.retirements)
            && |LiveSet(rob)| == |LiveSet(next)| + (if status.Success? then 1 else 0)
  {
    ApplyLiveSet(rob, DoRetire(h));
    LiveSetIs(rob);
    RetireSpec(rob, h);
    var next := Retire(rob, h).1;
    if Live(rob, h) {
      assert LiveSet(rob) == LiveSet(next) + {h} && h !in LiveSet(next);
    }
  }

  lemma ApplyConserves(rob: Rob, op: Op)
    requires Inv(rob) && Conserved(rob)
    ensures Inv(Apply(rob, op)) && Conserved(Apply(rob, op))
  {
    var n := |LiveSet(rob)|;
    CountUp(rob.allocations, rob.retirements, n);
    match op
    case DoAllocate(_, _, _) => AllocateCount(rob, op);
    case DoRetire(h) =>
      RetireCount(rob, h);
      if n > 0 {
        CountUp(rob.allocations, rob.retirements, n - 1);
      }
    case DoTick => ApplyLiveSet(rob, op);
  }

  /** The state after a run from `rob`. */
  ghost function Run(rob: Rob, ops: seq<Op>): (r: Rob)
    requires Inv(rob)
    ensures Inv(r)
    decreases |ops|
  {
    if ops == [] then rob
    else
      ApplyKeepsInv(rob, ops[0]);
      Run(Apply(rob, ops[0]), ops[1..])
  }

  lemma EmptyInv()
    ensures Inv(EMPTY) && LiveSet(EMPTY) == {}
  {
  }

  /** In every reachable state allocations minus retirements is the number of entries in flight. */
  lemma {:induction false} RunConserves(rob: Rob, ops: seq<Op>)
    requires Inv(rob) && Conserved(rob)
    ensures Conserved(Run(rob, ops))
    decreases |ops|
  {
    if ops != [] {
      ApplyConserves(rob, ops[0]);
      RunConserves(Apply(rob, ops[0]), ops[1..]);
    }
  }

  lemma ReachableConserves(ops: seq<Op>)
    ensures Inv(EMPTY) && Conserved(Run(EMPTY, ops))
  {
    EmptyInv();
    assert |LiveSet(EMPTY)| == 0;
    RunConserves(EMPTY, ops);
  }

  /** A handle in flight keeps its entry, Rip included, through any run that does not retire it. */
  lemma {:induction false} LiveHandleKept(rob: Rob, ops: seq<Op>, h: Handle)
    requires Inv(rob) && Live(rob, h)
    requires DoRetire(h) !in ops
    ensures Live(Run(rob, ops), h) && EntryOf(Run(rob, ops), h) == EntryOf(rob, h)
    decreases |ops|
  {
    if ops != [] {
      match ops[0] {
        case DoAllocate(rip, start, count) => AllocateSpec(rob, rip, start, count);
        case DoRetire(g) => RetireSpec(rob, g);
        case DoTick =>
      }
      LiveHandleKept(Apply(rob, ops[0]), ops[1..], h);
    }
  }

  lemma {:induction false} RetiringEmptiesLive(rob: Rob, ops: seq<Op>)
    requires Inv(rob)
    requires forall i :: 0 <= i < |ops| ==> ops[i].DoRetire?
    requires forall h :: h in LiveSet(rob) ==> DoRetire(h) in ops
    ensures LiveSet(Run(rob, ops)) == {}
    decreases |ops|
  {
    if ops != [] {
      ApplyLiveSet(rob, ops[0]);
      RetiringEmptiesLive(Apply(rob, ops[0]), ops[1..]);
    }
  }

  /** Retiring every handle in flight, in any order, empties every bank. */
  lemma RetireAllEmptiesBanks(rob: Rob, ops: seq<Op>, b: nat)
    requires Inv(rob) && b < BANKS
    requires forall i :: 0 <= i < |ops| ==> ops[i].DoRetire?
    requires forall h :: Live(rob, h) ==> DoRetire(h) in ops
    ensures Run(rob, ops).banks[b].queue == []
  {
    LiveSetIs(rob);
    RetiringEmptiesLive(rob, ops);
    var end := Run(rob, ops);
    LiveSetIs(end);
    var bank := end.banks[b];
    if bank.queue != [] {
      assert Pos(bank.head, bank.head) == 0;
      assert Live(end, Handle(b, bank.head));
      assert false;
    }
  }

  // ---- in-order release ----------------------------------------------------

  /** What leaves is exactly the longest finished part at the front of the queue. */
  lemma {:induction false} ReleasedIsSuffix(bank: Bank, b: nat) returns (n: nat)
    requires BankInv(bank, b)
    ensures n <= |bank.queue| && Released(bank) == Bank(At(bank.head, n), bank.queue[n..])
    ensures forall k :: 0 <= k < n ==> bank.queue[k].state.Retired?
    ensures n < |bank.queue| ==> !bank.queue[n].state.Retired?
    decreases |bank.queue|
  {
    if bank.queue != [] && bank.queue[0].state.Retired? {
      var rest := Popped(bank);
      forall k | 0 <= k < |rest.queue| ensures rest.queue[k].slotInBank == At(rest.head, k) {
        assert rest.queue[k] == bank.queue[k + 1];
      }
      var m := ReleasedIsSuffix(rest, b);
      n := m + 1;
      forall k | 0 <= k < n ensures bank.queue[k].state.Retired? {
        assert k > 0 ==> rest.queue[k - 1].state.Retired?;
      }
    } else {
      n := 0;
    }
  }

  /** An entry as it was when it was allocated. */
  function AsAllocated(e: RobEntry): RobEntry { e.(state := Allocated, retireTick := 0) }

  function AllAsAllocated(q: seq<RobEntry>): (r: seq<RobEntry>)
    ensures |r| == |q| && forall k :: 0 <= k < |q| ==> r[k] == AsAllocated(q[k])
  {
    seq(|q|, k requires 0 <= k < |q| => AsAllocated(q[k]))
  }

  /** The entry the step allocates in bank `b`, if any. */
  function Logged(rob: Rob, op: Op, b: nat): seq<RobEntry>
    requires Inv(rob)
  {
    match op
    case DoAllocate(rip, start, count) =>
      var h := Allocate(rob, rip, start, count).0;
      if h.Some? && h.value.bank == b then [NewEntry(rip, start, count, rob.cycle, b, h.value.slot)] else []
    case _ => []
  }

  /** All entries a run allocates in bank `b`, in order. */
  ghost function Log(rob: Rob, ops: seq<Op>, b: nat): seq<RobEntry>
    requires Inv(rob)
    decreases |ops|
  {
    if ops == [] then []
    else
      ApplyKeepsInv(rob, ops[0]);
      Logged(rob, ops[0], b) + Log(Apply(rob, ops[0]), ops[1..], b)
  }

  /** `rest` is what remains of `all` when its first elements have left. */
  predicate IsSuffix(rest: seq<RobEntry>, all: seq<RobEntry>) {
    |rest| <= |all| && rest == all[|all| - |rest|..]
  }

  lemma SuffixChain(end: seq<RobEntry>, middle: seq<RobEntry>, start: seq<RobEntry>, a: seq<RobEntry>, b: seq<RobEntry>)
    requires IsSuffix(middle, start + a) && IsSuffix(end, middle + b)
    ensures IsSuffix(end, start + (a + b))
  {
    var n := |start + a| - |middle|;
    assert start + (a + b) == start + a + b;
    assert middle + b == (start + a + b)[n..];
  }

  lemma SuffixAsAllocated(q: seq<RobEntry>, p: seq<RobEntry>, n: nat)
    requires n <= |q| && p == q[n..]
    ensures AllAsAllocated(p) == (AllAsAllocated(q) + [])[n..]
  {
  }

  lemma FinishAsAllocated(bank: Bank, slot: nat, tick: Word)
    requires bank.head < ENTRIES && slot < ENTRIES && InFlight(bank, slot)
    ensures AllAsAllocated(FinishIn(bank, slot, tick).queue) == AllAsAllocated(bank.queue)
  {
  }

  /** What retiring leaves of a bank was in it before, in the same order. */
  lemma RetireIsInOrder(bank: Bank, b: nat, slot: nat, tick: Word)
    requires BankInv(bank, b) && slot < ENTRIES && InFlight(bank, slot)
    ensures IsSuffix(AllAsAllocated(Released(FinishIn(bank, slot, tick)).queue), AllAsAllocated(bank.queue) + [])
  {
    var finished := FinishIn(bank, slot, tick);
    FinishAsAllocated(bank, slot, tick);
    var n := ReleasedIsSuffix(finished, b);
    SuffixAsAllocated(finished.queue, Released(finished).queue, n);
  }

  lemma StepIsInOrder(rob: Rob, op: Op, b: nat)
    requires Inv(rob) && b < BANKS
    ensures Inv(Apply(rob, op))
    ensures IsSuffix(AllAsAllocated(Apply(rob, op).banks[b].queue),
                     AllAsAllocated(rob.banks[b].queue) + Logged(rob, op, b))
  {
    ApplyKeepsInv(rob, op);
    if op.DoRetire? && op.h.bank == b && Live(rob, op.h) {
      RetireIsInOrder(rob.banks[b], b, op.h.slot, rob.cycle);
    } else {
      var before, after := AllAsAllocated(rob.banks[b].queue), AllAsAllocated(Apply(rob, op).banks[b].queue);
      assert after == (before + Logged(rob, op, b))[0..];
    }
  }

  /** Entries leave a bank in the order they were allocated: after any run the queue is what remains of
    * the old queue and the run's allocations when the first entries have left. */
  lemma {:induction false} ReleasesInOrder(rob: Rob, ops: seq<Op>, b: nat)
    requires Inv(rob) && b < BANKS
    ensures IsSuffix(AllAsAllocated(Run(rob, ops).banks[b].queue),
                     AllAsAllocated(rob.banks[b].queue) + Log(rob, ops, b))
    decreases |ops|
  {
    if ops == [] {
      var before := AllAsAllocated(rob.banks[b].queue);
      assert before == (before + [])[0..];
    } else {
      var next := Apply(rob, ops[0]);
      StepIsInOrder(rob, ops[0], b);
      ReleasesInOrder(next, ops[1..], b);
      SuffixChain(AllAsAllocated(Run(next, ops[1..]).banks[b].queue), AllAsAllocated(next.banks[b].queue),
                  AllAsAllocated(rob.banks[b].queue), Logged(rob, ops[0], b), Log(next, ops[1..], b));
    }
  }

  // ---- stalls --------------------------------------------------------------

  function ActiveCount(banks: seq<Bank>): nat {
    if banks == [] then 0 else |banks[0].queue| + ActiveCount(banks[1..])
  }

  lemma {:induction false} ActiveCountFull(banks: seq<Bank>)
    requires forall b :: 0 <= b < |banks| ==> |banks[b].queue| <= ENTRIES
    ensures ActiveCount(banks) <= ENTRIES * |banks|
    ensures ActiveCount(banks) == ENTRIES * |banks| <==> forall b :: 0 <= b < |banks| ==> Full(banks, b)
  {
    if banks != [] {
      var rest := banks[1..];
      ActiveCountFull(rest);
      assert forall b :: 0 <= b < |rest| ==> Full(rest, b) == Full(banks, b + 1);
      if Full(banks, 0) && (forall b :: 0 <= b < |rest| ==> Full(rest, b)) {
        forall b | 0 <= b < |banks| ensures Full(banks, b) {
          assert b > 0 ==> Full(rest, b - 1);
        }
      }
      if forall b :: 0 <= b < |banks| ==> Full(banks, b) {
        assert Full(banks, 0);
        assert forall b :: 0 <= b < |rest| ==> Full(rest, b);
      }
    }
  }

  /** Allocation stalls exactly when the active count is the total capacity, 784. */
  lemma StallsIffFull(rob: Rob, rip: Word, start: Word, count: Word32)
    requires Inv(rob)
    ensures Allocate(rob, rip, start, count).0.None? <==> ActiveCount(rob.banks) == 784
  {
    AllocateSpec(rob, rip, start, count);
    ActiveCountFull(rob.banks);
  }
}

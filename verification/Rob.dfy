/**
 * The reorder-buffer distributor as it is stored: per bank a head, a tail, a count and an array of
 * slots, updated in place. Each method is proved against the queue operations of module RobQueue.
 */
module Rob {
  import opened Words
  import Q = RobQueue
  import opened RobQueue

  datatype Header = Header(head: nat, tail: nat, count: nat, maxCount: nat)

  const BLANK := RobEntry(0, 0, 0, Free, 0, 0, 0, 0)

  class RobDistributor {
    const headers: array<Header>
    const slots: array2<RobEntry>
    var nextAllocBank: nat
    var totalAllocations: Word
    var totalRetirements: Word
    var totalStalls: Word
    var cycleCounter: Word

    /** The distributor as queues; `Valid` ties every stored field to it. */
    ghost var model: Q.Rob

    ghost predicate Shaped() {
      headers.Length == BANKS && slots.Length0 == BANKS && slots.Length1 == ENTRIES
    }

    /** Head, tail, count and slots of bank `b` represent this queue: the slots of the window hold its
      * entries in order, all others are free. */
    ghost predicate Stores(b: nat, bank: Bank)
      requires Shaped()
      requires b < BANKS && bank.head < ENTRIES && |bank.queue| <= ENTRIES
      reads headers, slots
    {
      var h := headers[b];
      && h.head == bank.head && h.count == |bank.queue| && h.tail == (h.head + h.count) % ENTRIES
      && h.count <= h.maxCount <= ENTRIES
      && (forall k :: 0 <= k < |bank.queue| ==> slots[b, At(bank.head, k)] == bank.queue[k])
      && (forall s :: 0 <= s < ENTRIES && Pos(bank.head, s) >= |bank.queue| ==> slots[b, s].state.Free?)
    }

    ghost predicate StoresAll(banks: seq<Bank>)
      requires Shaped()
      reads headers, slots
    {
      && |banks| == BANKS
      && forall b :: 0 <= b < BANKS ==> banks[b].head < ENTRIES && |banks[b].queue| <= ENTRIES && Stores(b, banks[b])
    }

    ghost predicate Valid()
      reads this, headers, slots
    {
      && Shaped() && Inv(model) && StoresAll(model.banks)
      && nextAllocBank == model.nextBank && totalAllocations == model.allocations
      && totalRetirements == model.retirements && totalStalls == model.stalls && cycleCounter == model.cycle
    }

    constructor ()
      ensures Valid() && fresh(headers) && fresh(slots)
      ensures model == EMPTY
    {
      headers := new Header[BANKS](_ => Header(0, 0, 0, 0));
      slots := new RobEntry[BANKS, ENTRIES]((_, _) => BLANK);
      nextAllocBank, totalAllocations, totalRetirements, totalStalls, cycleCounter := 0, 0, 0, 0, 0;
      model := EMPTY;
    }

    /** The cyclic search for a bank with room; it stops after one round at the latest. */
    method FindRoom(ghost banks: seq<Bank>) returns (room: Option<nat>)
      requires headers.Length == BANKS && |banks| == BANKS && nextAllocBank < BANKS
      requires forall b :: 0 <= b < BANKS ==> headers[b].count == |banks[b].queue|
      ensures room == FirstRoom(banks, nextAllocBank)
    {
      var startBank := nextAllocBank;
      var b: nat := startBank;
      while true
        invariant b < BANKS
        invariant RoomFrom(banks, startBank, b) == FirstRoom(banks, startBank)
        decreases BANKS - Ahead(startBank, b)
      {
        if headers[b].count < ENTRIES {
          return Some(b);
        }
        ghost var before := b;
        b := (b + 1) % BANKS;
        if b == startBank {
          return None;
        }
        AheadNext(startBank, before);
      }
    }

    /** Writes a new entry at the tail of a bank that has room. */
    method Append(b: nat, entry: RobEntry, ghost banks: seq<Bank>)
      requires Shaped() && b < BANKS && StoresAll(banks) && |banks[b].queue| < ENTRIES
      modifies headers, slots
      ensures StoresAll(banks[b := banks[b].(queue := banks[b].queue + [entry])])
    {
      ghost var bank := banks[b];
      assert Stores(b, bank);
      var h := headers[b];
      assert h.tail == At(bank.head, |bank.queue|);
      slots[b, h.tail] := entry;
      headers[b] := Header(h.head, (h.tail + 1) % ENTRIES, h.count + 1,
                           if h.count + 1 > h.maxCount then h.count + 1 else h.maxCount);
      assert Stores(b, bank.(queue := bank.queue + [entry]));
    }

    method Place(b: nat, rip: Word, microOpStart: Word, microOpCount: Word32) returns (handle: Handle)
      requires Valid() && b < BANKS && !Full(model.banks, b)
      modifies this, headers, slots
      ensures Valid()
      ensures handle == NextHandle(old(model), b) && model == Placed(old(model), b, rip, microOpStart, microOpCount)
    {
      PlacedSpec(model, b, rip, microOpStart, microOpCount);
      ghost var bank := model.banks[b];
      assert Stores(b, bank);
      nextAllocBank := (b + 1) % BANKS;
      var slot := headers[b].tail;
      assert slot == At(bank.head, |bank.queue|);
      Append(b, NewEntry(rip, microOpStart, microOpCount, cycleCounter, b, slot), model.banks);
      totalAllocations := AddW(totalAllocations, 1);
      model := Placed(model, b, rip, microOpStart, microOpCount);
      handle := Handle(b, slot);
    }

    method AllocateEntry(rip: Word, microOpStart: Word, microOpCount: Word32) returns (status: Status, handle: Handle)
      requires Valid()
      modifies this, headers, slots
      ensures Valid()
      ensures var (h, next) := Allocate(old(model), rip, microOpStart, microOpCount);
              && model == next
              && status == (if h.Some? then Success else OutOfResources)
              && (h.Some? ==> handle == h.value)
    {
      var room := FindRoom(model.banks);
      if room.None? {
        totalStalls := AddW(totalStalls, 1);
        model := model.(stalls := AddW(model.stalls, 1));
        return OutOfResources, Handle(0, 0);
      }
      status := Success;
      handle := Place(room.value, rip, microOpStart, microOpCount);
    }

    /** Frees the oldest entry of a bank. */
    method PopFront(b: nat, ghost banks: seq<Bank>)
      requires Shaped() && b < BANKS && StoresAll(banks) && banks[b].queue != []
      modifies headers, slots
      ensures StoresAll(banks[b := Popped(banks[b])])
    {
      ghost var bank := banks[b];
      assert Stores(b, bank);
      var h := headers[b];
      slots[b, h.head] := slots[b, h.head].(state := Free);
      headers[b] := Header((h.head + 1) % ENTRIES, h.tail, h.count - 1, h.maxCount);
      PoppedPlaces(bank);
      assert Stores(b, Popped(bank));
    }

    /** Pops finished entries off the front of a bank. */
    method Release(b: nat, ghost banks: seq<Bank>)
      requires Shaped() && b < BANKS && StoresAll(banks)
      modifies headers, slots
      ensures StoresAll(banks[b := Released(banks[b])])
    {
      ghost var now := banks;
      assert Stores(b, now[b]);
      assert |now[b].queue| > 0 ==> slots[b, At(now[b].head, 0)] == now[b].queue[0];
      while headers[b].count > 0 && slots[b, headers[b].head].state.Retired?
        invariant StoresAll(now) && now == banks[b := now[b]] && Released(now[b]) == Released(banks[b])
        invariant headers[b].head == now[b].head && headers[b].count == |now[b].queue|
        invariant |now[b].queue| > 0 ==> slots[b, headers[b].head] == now[b].queue[0]
        decreases |now[b].queue|
      {
        PopFront(b, now);
        now := now[b := Popped(now[b])];
        assert Stores(b, now[b]);
        assert |now[b].queue| > 0 ==> slots[b, At(now[b].head, 0)] == now[b].queue[0];
      }
    }

    /** Marks an entry of the window finished. */
    method FinishSlot(b: nat, slot: nat, ghost banks: seq<Bank>)
      requires Shaped() && b < BANKS && slot < ENTRIES && StoresAll(banks) && InFlight(banks[b], slot)
      modifies slots
      ensures StoresAll(banks[b := FinishIn(banks[b], slot, cycleCounter)])
    {
      ghost var bank := banks[b];
      assert Stores(b, bank);
      assert slot == At(bank.head, Pos(bank.head, slot));
      slots[b, slot] := Finish(slots[b, slot], cycleCounter);
      assert Stores(b, FinishIn(bank, slot, cycleCounter));
    }

    method RetireEntry(bank: nat, slot: nat) returns (status: Status)
      requires Valid()
      modifies this, headers, slots
      ensures Valid()
      ensures (status, model) == Retire(old(model), Handle(bank, slot))
    {
      if bank >= BANKS || slot >= ENTRIES {
        return InvalidParameter;
      }
      ghost var start := model.banks[bank];
      assert Stores(bank, start);
      assert slot == At(start.head, Pos(start.head, slot));
      if !slots[bank, slot].state.Allocated? {
        return NotReady;
      }
      RetireSpec(model, Handle(bank, slot));
      ghost var finished := model.banks[bank := FinishIn(start, slot, cycleCounter)];
      FinishSlot(bank, slot, model.banks);
      totalRetirements := AddW(totalRetirements, 1);
      Release(bank, finished);
      assert finished[bank := Released(finished[bank])] == Retire(model, Handle(bank, slot)).1.banks;
      model := Retire(model, Handle(bank, slot)).1;
      return Success;
    }

    method RobTick()
      requires Valid()
      modifies this
      ensures Valid() && model == Tick(old(model))
    {
      cycleCounter := AddW(cycleCounter, 1);
      model := Tick(model);
    }

    method GetActiveCount() returns (total: nat)
      requires Valid()
      ensures total == ActiveCount(model.banks)
    {
      total := 0;
      for b := 0 to BANKS
        invariant total + ActiveCount(model.banks[b..]) == ActiveCount(model.banks)
      {
        assert Stores(b, model.banks[b]);
        assert model.banks[b..][1..] == model.banks[b + 1..];
        total := total + headers[b].count;
      }
    }
  }

  lemma PoppedPlaces(bank: Bank)
    requires bank.head < ENTRIES && 0 < |bank.queue| <= ENTRIES
    ensures forall s :: 0 <= s < ENTRIES && s != bank.head ==> Pos(bank.head, s) == Pos(Popped(bank).head, s) + 1
    ensures forall k :: 0 <= k < |bank.queue| - 1 ==> At(Popped(bank).head, k) == At(bank.head, k + 1)
  {
  }
}

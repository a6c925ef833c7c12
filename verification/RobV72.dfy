/**
 * The compressed v7.2 reorder buffer: a main ring, seven extension rings that take the overflow,
 * a metadata table indexed by reorder tag, and counters kept twice.
 */
module RobV72 {
  import opened Words
  import opened RobQueue

  const MAIN_ENTRIES := 1568
  const EXT_BANKS := 7
  const EXT_ENTRIES := 9362
  const MAIN_BANK := 0xFFFF_FFFF

  datatype Compressed = Compressed(tag: nat, ready: nat, state: EntryState)

  datatype Meta = Meta(rip: Word, microOpStart: Word, microOpCount: Word32, bank: Word32, slot: nat, allocTick: Word)

  datatype Ring = Ring(head: nat, tail: nat, count: nat, entries: seq<Compressed>)

  datatype V72 = V72(
    main: Ring, mainCount: nat,
    ext: seq<Ring>, extCounts: seq<nat>,
    meta: seq<Meta>, metaTail: nat, metaCount: Word32, nextExt: nat,
    allocations: Word, retirements: Word, stalls: Word, cycle: Word)

  const ZERO_ENTRY := Compressed(0, 0, Free)
  const ZERO_META := Meta(0, 0, 0, 0, 0, 0)

  function EmptyRing(n: nat): Ring { Ring(0, 0, 0, seq(n, _ => ZERO_ENTRY)) }

  /** The state after initialisation. */
  function Initial(): (s: V72)
    ensures Inv72(s)
  {
    V72(EmptyRing(MAIN_ENTRIES), 0,
        seq(EXT_BANKS, _ => EmptyRing(EXT_ENTRIES)), seq(EXT_BANKS, _ => 0),
        seq(MAIN_ENTRIES, _ => ZERO_META), 0, 0, 0, 0, 0, 0, 0)
  }

  // ---- one ring ------------------------------------------------------------

  /** `(x + 1) % n` for an index below n. */
  function Next(n: nat, x: nat): nat
    requires x < n
  {
    if x + 1 == n then 0 else x + 1
  }

  /** `(head + k) % n`: the slot of the k-th entry of a window. */
  function Slot(n: nat, head: nat, k: nat): (s: nat)
    requires head < n && k <= n
    ensures s < n
  {
    if head + k < n then head + k else head + k - n
  }

  function Offset(n: nat, head: nat, slot: nat): (k: nat)
    requires head < n && slot < n
    ensures k < n && Slot(n, head, k) == slot
  {
    if slot >= head then slot - head else slot + n - head
  }

  /** Inside the window every entry is in use; finished ones may wait anywhere in it. */
  predicate RingOpen(r: Ring, n: nat) {
    && |r.entries| == n && r.head < n && r.count <= n && r.tail == Slot(n, r.head, r.count)
    && (forall k :: 0 <= k < r.count ==> !r.entries[Slot(n, r.head, k)].state.Free?)
  }

  /** In addition the oldest entry is unfinished. */
  predicate RingInv(r: Ring, n: nat) {
    RingOpen(r, n) && (r.count > 0 ==> r.entries[r.head].state.Allocated?)
  }

  function Push(r: Ring, n: nat, tag: nat): (p: Ring)
    requires RingInv(r, n) && r.count < n
    ensures RingInv(p, n)
  {
    var p := Ring(r.head, Next(n, r.tail), r.count + 1, r.entries[r.tail := Compressed(tag, 0, Allocated)]);
    assert Slot(n, r.head, 0) == r.head;
    p
  }

  function Mark(r: Ring, n: nat, slot: nat): (p: Ring)
    requires RingOpen(r, n) && slot < n
    ensures RingOpen(p, n)
  {
    r.(entries := r.entries[slot := r.entries[slot].(state := Retired)])
  }

  function ReleaseOne(r: Ring, n: nat): (p: Ring)
    requires RingOpen(r, n) && r.count > 0
    ensures RingOpen(p, n)
  {
    var p := Ring(Next(n, r.head), r.tail, r.count - 1, r.entries[r.head := r.entries[r.head].(state := Free)]);
    assert forall k :: 0 <= k < p.count ==> Slot(n, p.head, k) == Slot(n, r.head, k + 1);
    p
  }

  /** Frees finished entries at the front. */
  function Release(r: Ring, n: nat): (p: Ring)
    requires RingOpen(r, n)
    ensures RingInv(p, n) && p.count <= r.count
    decreases r.count
  {
    if r.count > 0 && r.entries[r.head].state.Retired? then Release(ReleaseOne(r, n), n)
    else
      assert r.count > 0 ==> Slot(n, r.head, 0) == r.head;
      r
  }

  // ---- the whole structure -------------------------------------------------

  /** Holds in every reachable state, spills included: the rings are well formed, metadata point into
    * them, and the counters that are kept twice agree. */
  predicate Inv72(s: V72) {
    && RingInv(s.main, MAIN_ENTRIES) && s.mainCount == s.main.count
    && |s.ext| == EXT_BANKS && |s.extCounts| == EXT_BANKS
    && (forall i :: 0 <= i < EXT_BANKS ==> RingInv(s.ext[i], EXT_ENTRIES) && s.extCounts[i] == s.ext[i].count)
    && |s.meta| == MAIN_ENTRIES && s.metaTail < MAIN_ENTRIES && s.nextExt < EXT_BANKS
    && (forall t :: 0 <= t < MAIN_ENTRIES ==> MetaOk(s.meta[t]))
  }

  predicate MetaOk(m: Meta) {
    (m.bank == MAIN_BANK && m.slot < MAIN_ENTRIES) || (m.bank < EXT_BANKS && m.slot < EXT_ENTRIES)
  }

  predicate ExtFull(ext: seq<Ring>, b: nat)
    requires b < |ext|
  {
    ext[b].count >= EXT_ENTRIES
  }

  /** The search for an extension ring with room, from ring `b` on, which gives up when it is back at `start`. */
  function ExtFrom(ext: seq<Ring>, start: nat, b: nat): (r: Option<nat>)
    requires |ext| == EXT_BANKS && start < EXT_BANKS && b < EXT_BANKS
    ensures r.None? ==> forall c :: 0 <= c < EXT_BANKS && Ahead(start, b) <= Ahead(start, c) ==> ExtFull(ext, c)
    ensures r.Some? ==>
              && r.value < EXT_BANKS && !ExtFull(ext, r.value)
              && forall c :: 0 <= c < EXT_BANKS && Ahead(start, b) <= Ahead(start, c) < Ahead(start, r.value)
                   ==> ExtFull(ext, c)
    decreases EXT_BANKS - Ahead(start, b)
  {
    if !ExtFull(ext, b) then Some(b)
    else if (b + 1) % EXT_BANKS == start then None
    else ExtFrom(ext, start, (b + 1) % EXT_BANKS)
  }

  /** The first extension ring with room in cyclic order from `start`. */
  function FirstExt(ext: seq<Ring>, start: nat): (r: Option<nat>)
    requires |ext| == EXT_BANKS && start < EXT_BANKS
    ensures r.None? <==> forall b :: 0 <= b < EXT_BANKS ==> ExtFull(ext, b)
    ensures r.Some? ==>
              && r.value < EXT_BANKS && !ExtFull(ext, r.value)
              && forall b :: 0 <= b < EXT_BANKS && Ahead(start, b) < Ahead(start, r.value) ==> ExtFull(ext, b)
  {
    ExtFrom(ext, start, start)
  }

  /** Records the metadata of a new entry under the next tag. */
  function Tagged(s: V72, rip: Word, start: Word, count: Word32, bank: Word32, slot: nat): V72
    requires Inv72(s) && MetaOk(Meta(rip, start, count, bank, slot, s.cycle))
    ensures Inv72(Tagged(s, rip, start, count, bank, slot))
  {
    s.(meta := s.meta[s.metaTail := Meta(rip, start, count, bank, slot, s.cycle)],
       metaTail := (s.metaTail + 1) % MAIN_ENTRIES, metaCount := (s.metaCount + 1) % W32,
       allocations := AddW(s.allocations, 1))
  }

  /** The next tag takes the next slot of the main ring. */
  function PushedMain(s: V72): (r: V72)
    requires Inv72(s) && s.mainCount < MAIN_ENTRIES
    ensures Inv72(r)
  {
    s.(main := Push(s.main, MAIN_ENTRIES, s.metaTail), mainCount := s.mainCount + 1)
  }

  function PlacedMain(s: V72, rip: Word, start: Word, count: Word32): (r: V72)
    requires Inv72(s) && s.mainCount < MAIN_ENTRIES
    ensures Inv72(r)
  {
    Tagged(PushedMain(s), rip, start, count, MAIN_BANK, s.main.tail)
  }

  /** The next tag takes the next slot of extension ring `b`, and the search starts behind it from now on. */
  function PushedExt(s: V72, b: nat): (r: V72)
    requires Inv72(s) && b < EXT_BANKS && s.ext[b].count < EXT_ENTRIES
    ensures Inv72(r)
  {
    s.(ext := s.ext[b := Push(s.ext[b], EXT_ENTRIES, s.metaTail)],
       extCounts := s.extCounts[b := s.extCounts[b] + 1], nextExt := (b + 1) % EXT_BANKS)
  }

  function PlacedExt(s: V72, b: nat, rip: Word, start: Word, count: Word32): (r: V72)
    requires Inv72(s) && b < EXT_BANKS && s.ext[b].count < EXT_ENTRIES
    ensures Inv72(r)
  {
    Tagged(PushedExt(s, b), rip, start, count, b, s.ext[b].tail)
  }

  function Allocate72(s: V72, rip: Word, start: Word, count: Word32): (Option<nat>, V72)
    requires Inv72(s)
  {
    if s.mainCount < MAIN_ENTRIES then (Some(s.metaTail), PlacedMain(s, rip, start, count))
    else
      match FirstExt(s.ext, s.nextExt)
      case None => (None, s.(stalls := AddW(s.stalls, 1)))
      case Some(b) => (Some(s.metaTail), PlacedExt(s, b, rip, start, count))
  }

  function RetiredMain(s: V72, slot: nat): (r: V72)
    requires Inv72(s) && slot < MAIN_ENTRIES
    ensures Inv72(r)
  {
    var ring := Release(Mark(s.main, MAIN_ENTRIES, slot), MAIN_ENTRIES);
    s.(main := ring, mainCount := s.mainCount - (s.main.count - ring.count), retirements := AddW(s.retirements, 1))
  }

  /** The slot of extension ring `b` is finished and the front of the ring freed. */
  function FinishedExt(s: V72, b: nat, slot: nat): (r: V72)
    requires Inv72(s) && b < EXT_BANKS && slot < EXT_ENTRIES
    ensures Inv72(r)
  {
    var ring := Release(Mark(s.ext[b], EXT_ENTRIES, slot), EXT_ENTRIES);
    s.(ext := s.ext[b := ring], extCounts := s.extCounts[b := s.extCounts[b] - (s.ext[b].count - ring.count)])
  }

  function RetiredExt(s: V72, b: nat, slot: nat): (r: V72)
    requires Inv72(s) && b < EXT_BANKS && slot < EXT_ENTRIES
    ensures Inv72(r)
  {
    FinishedExt(s, b, slot).(retirements := AddW(s.retirements, 1))
  }

  function Retire72(s: V72, tag: nat): (Status, V72)
    requires Inv72(s)
  {
    if tag >= MAIN_ENTRIES then (InvalidParameter, s)
    else
      var m := s.meta[tag];
      if m.bank == MAIN_BANK then
        if s.main.count == 0 then (NotReady, s) else (Success, RetiredMain(s, m.slot))
      else if s.ext[m.bank].count == 0 then (NotReady, s)
      else (Success, RetiredExt(s, m.bank, m.slot))
  }

  /** An allocation stalls exactly when the main ring and all seven extension rings are full. */
  lemma StallsIffAllFull(s: V72, rip: Word, start: Word, count: Word32)
    requires Inv72(s)
    ensures var (tag, next) := Allocate72(s, rip, start, count);
            && (tag.None? <==> s.main.count == MAIN_ENTRIES && forall b :: 0 <= b < EXT_BANKS ==> ExtFull(s.ext, b))
            && (tag.None? ==> next == s.(stalls := AddW(s.stalls, 1)))
  {
  }

  datatype Op72 = DoAllocate72(rip: Word, start: Word, count: Word32) | DoRetire72(tag: nat) | DoTick72

  function Apply72(s: V72, op: Op72): V72
    requires Inv72(s)
  {
    match op
    case DoAllocate72(rip, start, count) => Allocate72(s, rip, start, count).1
    case DoRetire72(tag) => Retire72(s, tag).1
    case DoTick72 => s.(cycle := AddW(s.cycle, 1))
  }

  /** Every step keeps the rings well formed and the doubled counters equal, whether or not it spills. */
  lemma Apply72KeepsInv(s: V72, op: Op72)
    requires Inv72(s)
    ensures Inv72(Apply72(s, op))
  {
  }

  ghost function Run72(s: V72, ops: seq<Op72>): (r: V72)
    requires Inv72(s)
    ensures Inv72(r)
    decreases |ops|
  {
    if ops == [] then s
    else
      Apply72KeepsInv(s, ops[0]);
      Run72(Apply72(s, ops[0]), ops[1..])
  }

  /** In every reachable state the doubled counters agree. */
  lemma CountersAgree(ops: seq<Op72>)
    ensures var s := Run72(Initial(), ops);
            s.mainCount == s.main.count && forall i :: 0 <= i < EXT_BANKS ==> s.extCounts[i] == s.ext[i].count
  {
  }

  // ---- runs that never spill -----------------------------------------------

  /** One entry of the first-in first-out view. */
  datatype Item = Item(rip: Word, microOpStart: Word, microOpCount: Word32, allocTick: Word, finished: bool)

  /** A bounded queue over tags: item k has tag head + k, wrapping around. */
  datatype Fifo = Fifo(head: nat, items: seq<Item>)

  predicate FifoInv(f: Fifo) { f.head < MAIN_ENTRIES && |f.items| <= MAIN_ENTRIES }

  function FifoRelease(f: Fifo): Fifo
    requires FifoInv(f)
    decreases |f.items|
  {
    if f.items != [] && f.items[0].finished then FifoRelease(Fifo(Next(MAIN_ENTRIES, f.head), f.items[1..])) else f
  }

  function FifoRetire(f: Fifo, tag: nat): Fifo
    requires FifoInv(f) && tag < MAIN_ENTRIES
  {
    var k := Offset(MAIN_ENTRIES, f.head, tag);
    if k < |f.items| then FifoRelease(f.(items := f.items[k := f.items[k].(finished := true)])) else f
  }

  function ItemOf(r: Ring, meta: seq<Meta>, slot: nat): Item
    requires |meta| == MAIN_ENTRIES == |r.entries| && slot < MAIN_ENTRIES
  {
    var m := meta[slot];
    Item(m.rip, m.microOpStart, m.microOpCount, m.allocTick, r.entries[slot].state.Retired?)
  }

  /** The main ring with its metadata seen as one queue. */
  function AsFifo(r: Ring, meta: seq<Meta>): (f: Fifo)
    requires RingOpen(r, MAIN_ENTRIES) && |meta| == MAIN_ENTRIES
    ensures FifoInv(f)
  {
    Fifo(r.head, seq(r.count, k requires 0 <= k < r.count => ItemOf(r, meta, Slot(MAIN_ENTRIES, r.head, k))))
  }

  /** Tag and slot coincide: the next tag is the next slot, and every entry is filed under its slot.
    * The extension rings are empty. */
  predicate Unspilled(s: V72)
    requires Inv72(s)
  {
    && s.metaTail == s.main.tail
    && (forall i :: 0 <= i < EXT_BANKS ==> s.ext[i].count == 0)
    && (forall t :: 0 <= t < MAIN_ENTRIES && s.meta[t].bank == MAIN_BANK ==> s.meta[t].slot == t)
    && (forall k :: 0 <= k < s.main.count ==> FiledUnderSlot(s, Slot(MAIN_ENTRIES, s.main.head, k)))
  }

  predicate FiledUnderSlot(s: V72, t: nat)
    requires |s.meta| == MAIN_ENTRIES == |s.main.entries| && t < MAIN_ENTRIES
  {
    s.meta[t].bank == MAIN_BANK && s.main.entries[t].tag == t
  }

  /** The tag belongs to an entry of the main ring that has not been released. */
  predicate LiveTag(s: V72, tag: nat)
    requires Inv72(s)
  {
    exists k :: 0 <= k < s.main.count && s.main.entries[Slot(MAIN_ENTRIES, s.main.head, k)].tag == tag
  }

  lemma InWindow(r: Ring, slot: nat)
    requires RingOpen(r, MAIN_ENTRIES) && slot < MAIN_ENTRIES
    ensures forall k :: 0 <= k < r.count && k != Offset(MAIN_ENTRIES, r.head, slot)
                        ==> Slot(MAIN_ENTRIES, r.head, k) != slot
  {
  }

  /** Without spills, live tags are exactly the slots of the window, so no two entries share one. */
  lemma LiveTagsAreSlots(s: V72)
    requires Inv72(s) && Unspilled(s)
    ensures forall t :: 0 <= t < MAIN_ENTRIES ==>
              (LiveTag(s, t) <==> Offset(MAIN_ENTRIES, s.main.head, t) < s.main.count)
    ensures forall j, k :: 0 <= j < k < s.main.count ==>
              s.main.entries[Slot(MAIN_ENTRIES, s.main.head, j)].tag
              != s.main.entries[Slot(MAIN_ENTRIES, s.main.head, k)].tag
  {
    forall t | 0 <= t < MAIN_ENTRIES
      ensures LiveTag(s, t) <==> Offset(MAIN_ENTRIES, s.main.head, t) < s.main.count
    {
      var k := Offset(MAIN_ENTRIES, s.main.head, t);
      InWindow(s.main, t);
      if k < s.main.count {
        assert FiledUnderSlot(s, Slot(MAIN_ENTRIES, s.main.head, k));
      }
      if LiveTag(s, t) {
        var j :| 0 <= j < s.main.count && s.main.entries[Slot(MAIN_ENTRIES, s.main.head, j)].tag == t;
        assert FiledUnderSlot(s, Slot(MAIN_ENTRIES, s.main.head, j));
      }
    }
    forall j, k | 0 <= j < k < s.main.count
      ensures s.main.entries[Slot(MAIN_ENTRIES, s.main.head, j)].tag
              != s.main.entries[Slot(MAIN_ENTRIES, s.main.head, k)].tag
    {
      assert FiledUnderSlot(s, Slot(MAIN_ENTRIES, s.main.head, j));
      assert FiledUnderSlot(s, Slot(MAIN_ENTRIES, s.main.head, k));
    }
  }

  /** With room in the main ring: the tag is the slot written, was not live, and the queue grows by
    * the new entry at its end. */
  lemma AllocateUnspilled(s: V72, rip: Word, start: Word, count: Word32)
    requires Inv72(s) && Unspilled(s) && s.main.count < MAIN_ENTRIES
    ensures var (tag, next) := Allocate72(s, rip, start, count);
            var f := AsFifo(s.main, s.meta);
            && Inv72(next) && Unspilled(next)
            && tag == Some(s.main.tail) && !LiveTag(s, tag.value)
            && AsFifo(next.main, next.meta) == f.(items := f.items + [Item(rip, start, count, s.cycle, false)])
  {
    var (tag, next) := Allocate72(s, rip, start, count);
    LiveTagsAreSlots(s);
    assert Offset(MAIN_ENTRIES, s.main.head, s.main.tail) == s.main.count;
    forall k | 0 <= k < next.main.count
      ensures FiledUnderSlot(next, Slot(MAIN_ENTRIES, next.main.head, k))
    {
      if k < s.main.count {
        assert FiledUnderSlot(s, Slot(MAIN_ENTRIES, s.main.head, k));
      }
    }
    var f := AsFifo(s.main, s.meta);
    assert AsFifo(next.main, next.meta).items == f.items + [Item(rip, start, count, s.cycle, false)];
  }

  lemma {:induction false} ReleaseAsFifo(r: Ring, meta: seq<Meta>)
    requires RingOpen(r, MAIN_ENTRIES) && |meta| == MAIN_ENTRIES
    ensures AsFifo(Release(r, MAIN_ENTRIES), meta) == FifoRelease(AsFifo(r, meta))
    decreases r.count
  {
    var f := AsFifo(r, meta);
    assert r.count > 0 ==> Slot(MAIN_ENTRIES, r.head, 0) == r.head;
    if r.count > 0 && r.entries[r.head].state.Retired? {
      var one := ReleaseOne(r, MAIN_ENTRIES);
      ReleaseAsFifo(one, meta);
      assert AsFifo(one, meta).items == f.items[1..];
    }
  }

  lemma SlotAdd(n: nat, head: nat, j: nat, k: nat)
    requires head < n && j + k <= n
    ensures Slot(n, Slot(n, head, j), k) == Slot(n, head, j + k)
  {
  }

  /** Releasing keeps a part of the window, and the tail. */
  lemma {:induction false} ReleaseKeeps(r: Ring, n: nat)
    requires RingOpen(r, n)
    ensures var p := Release(r, n);
            && p.tail == r.tail
            && (forall t :: 0 <= t < n ==> p.entries[t].tag == r.entries[t].tag)
            && p.head == Slot(n, r.head, r.count - p.count)
    decreases r.count
  {
    if r.count > 0 && r.entries[r.head].state.Retired? {
      ReleaseKeeps(ReleaseOne(r, n), n);
    }
  }

  lemma MarkAsFifo(r: Ring, meta: seq<Meta>, slot: nat)
    requires RingInv(r, MAIN_ENTRIES) && |meta| == MAIN_ENTRIES && slot < MAIN_ENTRIES
    ensures AsFifo(Release(Mark(r, MAIN_ENTRIES, slot), MAIN_ENTRIES), meta) == FifoRetire(AsFifo(r, meta), slot)
  {
    var f := AsFifo(r, meta);
    var m := Mark(r, MAIN_ENTRIES, slot);
    var k := Offset(MAIN_ENTRIES, r.head, slot);
    InWindow(r, slot);
    ReleaseAsFifo(m, meta);
    if k < r.count {
      assert AsFifo(m, meta).items == f.items[k := f.items[k].(finished := true)];
    } else {
      assert AsFifo(m, meta).items == f.items;
      assert r.count > 0 ==> Slot(MAIN_ENTRIES, r.head, 0) == r.head;
    }
  }

  lemma WindowIsMain(s: V72, tag: nat)
    requires Inv72(s) && Unspilled(s) && tag < MAIN_ENTRIES
    ensures Offset(MAIN_ENTRIES, s.main.head, tag) < s.main.count ==> s.meta[tag].bank == MAIN_BANK
  {
    var k := Offset(MAIN_ENTRIES, s.main.head, tag);
    if k < s.main.count {
      assert FiledUnderSlot(s, Slot(MAIN_ENTRIES, s.main.head, k));
    }
  }

  lemma UnspilledAfterRelease(s: V72, next: V72, tag: nat)
    requires Inv72(s) && Unspilled(s) && tag < MAIN_ENTRIES
    requires Inv72(next) && next.main == Release(Mark(s.main, MAIN_ENTRIES, tag), MAIN_ENTRIES)
    requires next.meta == s.meta && next.metaTail == s.metaTail && next.ext == s.ext
    ensures Unspilled(next)
  {
    ReleaseKeeps(Mark(s.main, MAIN_ENTRIES, tag), MAIN_ENTRIES);
    var gone := s.main.count - next.main.count;
    forall k | 0 <= k < next.main.count
      ensures FiledUnderSlot(next, Slot(MAIN_ENTRIES, next.main.head, k))
    {
      SlotAdd(MAIN_ENTRIES, s.main.head, gone, k);
      assert FiledUnderSlot(s, Slot(MAIN_ENTRIES, s.main.head, gone + k));
    }
  }

  /** Retiring any tag at all acts on the queue as finishing that entry and releasing the front; a tag
    * that is not live changes nothing there. */
  lemma RetireUnspilled(s: V72, tag: nat)
    requires Inv72(s) && Unspilled(s) && tag < MAIN_ENTRIES
    ensures var next := Retire72(s, tag).1;
            && Inv72(next) && Unspilled(next)
            && AsFifo(next.main, next.meta) == FifoRetire(AsFifo(s.main, s.meta), tag)
  {
    WindowIsMain(s, tag);
    if s.meta[tag].bank == MAIN_BANK && s.main.count > 0 {
      MarkAsFifo(s.main, s.meta, tag);
      UnspilledAfterRelease(s, Retire72(s, tag).1, tag);
    }
  }

  /** The queue operation each step performs. */
  function FifoApply(f: Fifo, cycle: Word, op: Op72): Fifo
    requires FifoInv(f)
  {
    match op
    case DoAllocate72(rip, start, count) => f.(items := f.items + [Item(rip, start, count, cycle, false)])
    case DoRetire72(tag) => if tag < MAIN_ENTRIES then FifoRetire(f, tag) else f
    case DoTick72 => f
  }

  /** No allocation of the run finds the main ring full. */
  ghost predicate NeverSpills(s: V72, ops: seq<Op72>)
    requires Inv72(s)
    decreases |ops|
  {
    ops == []
    || ((ops[0].DoAllocate72? ==> s.main.count < MAIN_ENTRIES)
        && Inv72(Apply72(s, ops[0])) && NeverSpills(Apply72(s, ops[0]), ops[1..]))
  }

  /** The bounded queue driven by the same run; the clock is the structure's. */
  ghost function FifoRun(f: Fifo, cycle: Word, ops: seq<Op72>): Fifo
    decreases |ops|
  {
    if ops == [] || !FifoInv(f) then f
    else FifoRun(FifoApply(f, cycle, ops[0]), if ops[0].DoTick72? then AddW(cycle, 1) else cycle, ops[1..])
  }

  lemma {:induction false} RunRefinesFifoFrom(s: V72, ops: seq<Op72>)
    requires Inv72(s) && Unspilled(s) && NeverSpills(s, ops)
    ensures var end := Run72(s, ops);
            Unspilled(end) && AsFifo(end.main, end.meta) == FifoRun(AsFifo(s.main, s.meta), s.cycle, ops)
    decreases |ops|
  {
    if ops != [] {
      match ops[0] {
        case DoAllocate72(rip, start, count) => AllocateUnspilled(s, rip, start, count);
        case DoRetire72(tag) =>
          if tag < MAIN_ENTRIES {
            RetireUnspilled(s, tag);
          }
        case DoTick72 =>
      }
      RunRefinesFifoFrom(Apply72(s, ops[0]), ops[1..]);
    }
  }

  /** Every run from initialisation that never spills is a run of one first-in first-out queue of
    * 1568 entries, with tag equal to slot and all live tags different. */
  lemma RunRefinesFifo(ops: seq<Op72>)
    requires NeverSpills(Initial(), ops)
    ensures var end := Run72(Initial(), ops);
            && Unspilled(end)
            && AsFifo(end.main, end.meta) == FifoRun(Fifo(0, []), 0, ops)
            && forall j, k :: 0 <= j < k < end.main.count ==>
                 end.main.entries[Slot(MAIN_ENTRIES, end.main.head, j)].tag
                 != end.main.entries[Slot(MAIN_ENTRIES, end.main.head, k)].tag
  {
    assert AsFifo(Initial().main, Initial().meta) == Fifo(0, []);
    RunRefinesFifoFrom(Initial(), ops);
    LiveTagsAreSlots(Run72(Initial(), ops));
  }

  // ---- after the first spill -----------------------------------------------

  /** The main ring is full for good: every tag is the tag of one of its entries, and no metadata lead to
    * its oldest entry any more, so that entry can never be finished. */
  predicate Stuck(s: V72)
    requires Inv72(s)
  {
    && s.main.count == MAIN_ENTRIES
    && (forall t :: 0 <= t < MAIN_ENTRIES ==> s.main.entries[t].tag == t)
    && (forall t :: 0 <= t < MAIN_ENTRIES ==> LeadsElsewhere(s.meta[t], s.main.head))
  }

  predicate LeadsElsewhere(m: Meta, head: nat) { m.bank == MAIN_BANK ==> m.slot != head }

  /** The first allocation that finds the main ring full overwrites the metadata of its oldest entry. */
  lemma FirstSpillSticks(s: V72, rip: Word, start: Word, count: Word32)
    requires Inv72(s) && Unspilled(s) && s.main.count == MAIN_ENTRIES
    ensures var (tag, next) := Allocate72(s, rip, start, count);
            tag == Some(s.main.head) && Inv72(next) && Stuck(next)
  {
    assert !ExtFull(s.ext, s.nextExt);
    forall t | 0 <= t < MAIN_ENTRIES ensures s.main.entries[t].tag == t {
      assert FiledUnderSlot(s, Slot(MAIN_ENTRIES, s.main.head, Offset(MAIN_ENTRIES, s.main.head, t)));
    }
  }

  lemma StuckMarks(r: Ring, slot: nat)
    requires RingInv(r, MAIN_ENTRIES) && r.count > 0 && slot < MAIN_ENTRIES && slot != r.head
    ensures Release(Mark(r, MAIN_ENTRIES, slot), MAIN_ENTRIES) == Mark(r, MAIN_ENTRIES, slot)
  {
  }

  /** Nothing undoes it: every step, whatever it allocates or retires, keeps the main ring stuck. */
  lemma StuckStays(s: V72, op: Op72)
    requires Inv72(s) && Stuck(s)
    ensures Inv72(Apply72(s, op)) && Stuck(Apply72(s, op))
  {
    match op
    case DoAllocate72(rip, start, count) =>
    case DoRetire72(tag) =>
      if tag < MAIN_ENTRIES {
        assert LeadsElsewhere(s.meta[tag], s.main.head);
        if s.meta[tag].bank == MAIN_BANK {
          StuckMarks(s.main, s.meta[tag].slot);
        }
      }
    case DoTick72 =>
  }

  lemma UnspilledOrStuck(s: V72, op: Op72)
    requires Inv72(s) && (Unspilled(s) || Stuck(s))
    ensures Inv72(Apply72(s, op)) && (Unspilled(Apply72(s, op)) || Stuck(Apply72(s, op)))
  {
    if Stuck(s) {
      StuckStays(s, op);
    } else {
      match op
      case DoAllocate72(rip, start, count) =>
        if s.main.count < MAIN_ENTRIES {
          AllocateUnspilled(s, rip, start, count);
        } else {
          FirstSpillSticks(s, rip, start, count);
        }
      case DoRetire72(tag) =>
        if tag < MAIN_ENTRIES {
          RetireUnspilled(s, tag);
        }
      case DoTick72 =>
    }
  }

  lemma {:induction false} RunUnspilledOrStuck(s: V72, ops: seq<Op72>)
    requires Inv72(s) && (Unspilled(s) || Stuck(s))
    ensures Unspilled(Run72(s, ops)) || Stuck(Run72(s, ops))
    decreases |ops|
  {
    if ops != [] {
      UnspilledOrStuck(s, ops[0]);
      RunUnspilledOrStuck(Apply72(s, ops[0]), ops[1..]);
    }
  }

  lemma {:induction false} StuckForEver(s: V72, ops: seq<Op72>)
    requires Inv72(s) && Stuck(s)
    ensures Stuck(Run72(s, ops)) && Run72(s, ops).main.head == s.main.head
    decreases |ops|
  {
    if ops != [] {
      StuckStays(s, ops[0]);
      StuckHeadStays(s, ops[0]);
      StuckForEver(Apply72(s, ops[0]), ops[1..]);
    }
  }

  lemma StuckHeadStays(s: V72, op: Op72)
    requires Inv72(s) && Stuck(s)
    ensures Apply72(s, op).main.head == s.main.head
  {
    if op.DoRetire72? && op.tag < MAIN_ENTRIES && s.meta[op.tag].bank == MAIN_BANK {
      assert LeadsElsewhere(s.meta[op.tag], s.main.head);
      StuckMarks(s.main, s.meta[op.tag].slot);
    }
  }

  /** The tag belongs to an unreleased entry of an extension ring. */
  predicate SpilledTag(s: V72, tag: nat)
    requires Inv72(s)
  {
    exists i :: 0 <= i < EXT_BANKS && RingHasTag(s.ext[i], tag)
  }

  predicate RingHasTag(r: Ring, tag: nat)
    requires RingInv(r, EXT_ENTRIES)
  {
    exists k :: 0 <= k < r.count && r.entries[Slot(EXT_ENTRIES, r.head, k)].tag == tag
  }

  /** An allocation returns a tag that no unreleased entry of any ring carries exactly when the main ring
    * has room. */
  lemma FreshTagIffRoom(s: V72, rip: Word, start: Word, count: Word32)
    requires Inv72(s) && (Unspilled(s) || Stuck(s))
    ensures var tag := Allocate72(s, rip, start, count).0;
            tag.Some? ==> (!LiveTag(s, tag.value) && !SpilledTag(s, tag.value) <==> s.main.count < MAIN_ENTRIES)
  {
    if Stuck(s) {
      assert Slot(MAIN_ENTRIES, s.main.head, Offset(MAIN_ENTRIES, s.main.head, s.metaTail)) == s.metaTail;
    } else {
      LiveTagsAreSlots(s);
      if s.main.count < MAIN_ENTRIES {
        AllocateUnspilled(s, rip, start, count);
      } else {
        assert Offset(MAIN_ENTRIES, s.main.head, s.metaTail) == 0;
      }
    }
  }

  /** After every run from initialisation an allocation that succeeds returns a fresh tag exactly when the
    * main ring has room. */
  lemma FreshTagIffNoSpill(ops: seq<Op72>, rip: Word, start: Word, count: Word32)
    ensures var s := Run72(Initial(), ops);
            var tag := Allocate72(s, rip, start, count).0;
            tag.Some? ==> (!LiveTag(s, tag.value) && !SpilledTag(s, tag.value) <==> s.main.count < MAIN_ENTRIES)
  {
    RunUnspilledOrStuck(Initial(), ops);
    FreshTagIffRoom(Run72(Initial(), ops), rip, start, count);
  }

  /** Once an allocation of a run from initialisation has found the main ring full, the ring stays full
    * with the same oldest entry, and every later allocation spills a tag that is in use, or stalls. */
  lemma SpillIsForEver(ops: seq<Op72>, rip: Word, start: Word, count: Word32, later: seq<Op72>)
    requires Run72(Initial(), ops).main.count == MAIN_ENTRIES
    ensures var s := Run72(Initial(), ops);
            var spilled := Allocate72(s, rip, start, count).1;
            && Inv72(spilled)
            && var end := Run72(spilled, later);
               && end.main.count == MAIN_ENTRIES && end.main.head == s.main.head
               && forall t :: 0 <= t < MAIN_ENTRIES ==> LiveTag(end, t)
  {
    var s := Run72(Initial(), ops);
    RunUnspilledOrStuck(Initial(), ops);
    var op := DoAllocate72(rip, start, count);
    if Stuck(s) {
      StuckStays(s, op);
      StuckHeadStays(s, op);
    } else {
      FirstSpillSticks(s, rip, start, count);
    }
    var spilled := Apply72(s, op);
    StuckForEver(spilled, later);
    var end := Run72(spilled, later);
    forall t | 0 <= t < MAIN_ENTRIES ensures LiveTag(end, t) {
      assert end.main.entries[Slot(MAIN_ENTRIES, end.main.head, Offset(MAIN_ENTRIES, end.main.head, t))].tag == t;
    }
  }

  /** `n` allocations in a row. */
  function Allocations(n: nat): (ops: seq<Op72>)
    ensures |ops| == n && forall i :: 0 <= i < n ==> ops[i] == DoAllocate72(0, 0, 0)
  {
    seq(n, _ => DoAllocate72(0, 0, 0))
  }

  lemma {:induction false} AllocationsFill(s: V72, n: nat)
    requires Inv72(s) && Unspilled(s) && s.main.count + n <= MAIN_ENTRIES
    ensures Run72(s, Allocations(n)).main.count == s.main.count + n
    decreases n
  {
    if n > 0 {
      AllocateUnspilled(s, 0, 0, 0);
      assert Allocations(n)[1..] == Allocations(n - 1);
      AllocationsFill(Apply72(s, DoAllocate72(0, 0, 0)), n - 1);
    }
  }

  /** The first spill is within reach: as many allocations as the main ring has entries fill it. */
  lemma SpillReached(n: nat)
    requires n == MAIN_ENTRIES
    ensures Run72(Initial(), Allocations(n)).main.count == MAIN_ENTRIES
  {
    AllocationsFill(Initial(), n);
  }
}

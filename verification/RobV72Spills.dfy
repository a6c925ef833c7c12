/** The compressed reorder buffer step by step, in numbers: what a spill writes, and what retiring a tag
  * finishes and releases, in the main ring or in the extension ring its metadata name. */
module RobV72Spills {
  import opened Words
  import opened RobQueue
  import opened RobV72

  lemma SlotIs(n: nat, head: nat, k: nat)
    requires head < n && k <= n
    ensures Slot(n, head, k) == (head + k) % n
  {
  }

  /** One ring takes a tag in the slot behind its last entry. */
  predicate Takes(r: Ring, p: Ring, n: nat, tag: nat)
    requires n > 0
  {
    && |r.entries| == n && p.head == r.head && p.count == r.count + 1 && p.tail == (r.head + r.count + 1) % n
    && p.entries == r.entries[(r.head + r.count) % n := Compressed(tag, 0, Allocated)]
  }

  lemma PushTakes(r: Ring, n: nat, tag: nat)
    requires RingInv(r, n) && r.count < n
    ensures Takes(r, Push(r, n, tag), n, tag)
  {
    SlotIs(n, r.head, r.count);
    SlotIs(n, r.head, r.count + 1);
  }

  /** The metadata record this allocation. */
  predicate Describes(m: Meta, rip: Word, start: Word, count: Word32, bank: nat, slot: nat, tick: Word) {
    && m.rip == rip && m.microOpStart == start && m.microOpCount == count
    && m.bank == bank && m.slot == slot && m.allocTick == tick
  }

  /** What every successful allocation does besides filling a slot: it hands out the next tag and records the
    * caller's data, the ring and the slot under it. */
  predicate HandsOut(s: V72, next: V72, rip: Word, start: Word, count: Word32, bank: nat, slot: nat)
    requires s.metaTail < |s.meta|
  {
    && |next.meta| == |s.meta|
    && Describes(next.meta[s.metaTail], rip, start, count, bank, slot, s.cycle)
    && (forall t :: 0 <= t < |s.meta| && t != s.metaTail ==> next.meta[t] == s.meta[t])
    && next.metaTail == (s.metaTail + 1) % 1568 && next.metaCount == (s.metaCount + 1) % 0x1_0000_0000
    && next.allocations == (s.allocations + 1) % 0x1_0000_0000_0000_0000
    && next.retirements == s.retirements && next.stalls == s.stalls && next.cycle == s.cycle
  }

  /** With fewer than 1568 entries in the main ring, allocation fills its next slot. */
  lemma MainResults(s: V72, rip: Word, start: Word, count: Word32)
    requires Inv72(s) && s.main.count < 1568
    ensures var (tag, next) := Allocate72(s, rip, start, count);
            && tag == Some(s.metaTail) && Takes(s.main, next.main, 1568, s.metaTail)
            && next.mainCount == s.mainCount + 1 && next.ext == s.ext && next.extCounts == s.extCounts
            && next.nextExt == s.nextExt
            && HandsOut(s, next, rip, start, count, 0xFFFF_FFFF, (s.main.head + s.main.count) % 1568)
  {
    PushTakes(s.main, MAIN_ENTRIES, s.metaTail);
    SlotIs(MAIN_ENTRIES, s.main.head, s.main.count);
  }

  /** With 1568 entries there, it fills the next slot of the first extension ring, in cyclic order, that holds
    * fewer than 9362; the main ring and the other six stay as they are. */
  lemma SpillResults(s: V72, rip: Word, start: Word, count: Word32) returns (b: nat)
    requires Inv72(s) && s.main.count == 1568 && exists i :: 0 <= i < 7 && s.ext[i].count < 9362
    ensures b < 7 && s.ext[b].count < 9362
    ensures forall i :: 0 <= i < 7 && (i + 7 - s.nextExt) % 7 < (b + 7 - s.nextExt) % 7 ==> s.ext[i].count == 9362
    ensures var (tag, next) := Allocate72(s, rip, start, count);
            && tag == Some(s.metaTail) && |next.ext| == 7 && Takes(s.ext[b], next.ext[b], 9362, s.metaTail)
            && next.extCounts == s.extCounts[b := s.extCounts[b] + 1]
            && (forall i :: 0 <= i < 7 && i != b ==> next.ext[i] == s.ext[i])
            && next.main == s.main && next.mainCount == s.mainCount && next.nextExt == (b + 1) % 7
            && HandsOut(s, next, rip, start, count, b, (s.ext[b].head + s.ext[b].count) % 9362)
  {
    b := SpillRing(s.ext, s.nextExt);
    PushTakes(s.ext[b], EXT_ENTRIES, s.metaTail);
    SlotIs(EXT_ENTRIES, s.ext[b].head, s.ext[b].count);
    TaggedHandsOut(PushedExt(s, b), rip, start, count, b, s.ext[b].tail);
  }

  lemma TaggedHandsOut(s: V72, rip: Word, start: Word, count: Word32, bank: Word32, slot: nat)
    requires Inv72(s) && MetaOk(Meta(rip, start, count, bank, slot, s.cycle))
    ensures HandsOut(s, Tagged(s, rip, start, count, bank, slot), rip, start, count, bank, slot)
  {
  }

  lemma SpillRing(ext: seq<Ring>, start: nat) returns (b: nat)
    requires |ext| == 7 && start < 7 && exists i :: 0 <= i < 7 && ext[i].count < 9362
    ensures FirstExt(ext, start) == Some(b) && b < 7 && ext[b].count < 9362
    ensures forall i :: 0 <= i < 7 && (i + 7 - start) % 7 < (b + 7 - start) % 7 ==> ext[i].count >= 9362
  {
    var i :| 0 <= i < 7 && ext[i].count < 9362;
    assert !ExtFull(ext, i);
    b := FirstExt(ext, start).value;
    AheadIs(start, b);
    forall c | 0 <= c < 7 && (c + 7 - start) % 7 < (b + 7 - start) % 7 ensures ext[c].count >= 9362 {
      AheadIs(start, c);
      assert ExtFull(ext, c);
    }
  }

  lemma AheadIs(start: nat, c: nat)
    requires start < 7 && c < 7
    ensures Ahead(start, c) == (c + 7 - start) % 7
  {
  }

  // ---- retirement ----------------------------------------------------------

  /** Finished already, or finished now. */
  predicate IsDone(r: Ring, slot: nat, t: nat)
    requires t < |r.entries|
  {
    t == slot || r.entries[t].state == Retired
  }

  lemma OffsetIs(n: nat, head: nat, t: nat)
    requires head < n && t < n
    ensures Offset(n, head, t) == (t + n - head) % n
  {
  }

  /** The ring once `slot` is finished: exactly the longest finished part of `g` entries at its front is free;
    * no tag changes, and no other state. An entry's offset is how far behind the front it is. */
  predicate Frees(r: Ring, p: Ring, n: nat, slot: nat, g: nat)
    requires r.head < n
  {
    && |r.entries| == |p.entries| == n && g <= r.count
    && p.count == r.count - g && p.head == (r.head + g) % n && p.tail == r.tail
    && (forall t :: 0 <= t < n ==> p.entries[t].tag == r.entries[t].tag && p.entries[t].ready == r.entries[t].ready)
    && (forall t :: 0 <= t < n && Offset(n, r.head, t) < g ==> IsDone(r, slot, t) && p.entries[t].state == Free)
    && (forall t :: 0 <= t < n && Offset(n, r.head, t) == g < r.count ==> !IsDone(r, slot, t))
    && (forall t :: 0 <= t < n && Offset(n, r.head, t) >= g ==>
          p.entries[t].state == if t == slot then Retired else r.entries[t].state)
  }

  /** What releasing the finished front does to a ring. */
  predicate Clears(m: Ring, p: Ring, n: nat, g: nat)
    requires m.head < n && g <= m.count <= n
  {
    && |m.entries| == |p.entries| == n
    && p.count == m.count - g && p.head == Slot(n, m.head, g) && p.tail == m.tail
    && (forall t :: 0 <= t < n && Offset(n, m.head, t) < g ==>
          m.entries[t].state == Retired && p.entries[t] == m.entries[t].(state := Free))
    && (forall t :: 0 <= t < n && Offset(n, m.head, t) == g < m.count ==> m.entries[t].state != Retired)
    && (forall t :: 0 <= t < n && Offset(n, m.head, t) >= g ==> p.entries[t] == m.entries[t])
  }

  lemma {:induction false} ReleaseClears(m: Ring, n: nat) returns (g: nat)
    requires RingOpen(m, n)
    ensures g <= m.count && Clears(m, Release(m, n), n, g)
    decreases m.count
  {
    if m.count > 0 && m.entries[m.head].state.Retired? {
      var one := ReleaseOne(m, n);
      var rest := ReleaseClears(one, n);
      g := rest + 1;
      ClearsOneMore(m, one, Release(one, n), n, rest);
    } else {
      g := 0;
    }
  }

  lemma ClearsOneMore(m: Ring, one: Ring, p: Ring, n: nat, rest: nat)
    requires RingOpen(m, n) && m.count > 0 && m.entries[m.head].state.Retired? && one == ReleaseOne(m, n)
    requires rest <= one.count && Clears(one, p, n, rest)
    ensures Clears(m, p, n, rest + 1)
  {
    OffsetsAfterOne(n, m.head);
    SlotAdd(n, m.head, 1, rest);
  }

  lemma OffsetsAfterOne(n: nat, head: nat)
    requires head < n
    ensures forall t :: 0 <= t < n && t != head ==> Offset(n, head, t) == Offset(n, Next(n, head), t) + 1
    ensures Offset(n, head, head) == 0 && Offset(n, Next(n, head), head) == n - 1
  {
  }

  lemma ClearsIsFrees(r: Ring, p: Ring, n: nat, slot: nat, g: nat)
    requires RingInv(r, n) && slot < n && g <= r.count && Clears(Mark(r, n, slot), p, n, g)
    ensures Frees(r, p, n, slot, g)
  {
    SlotIs(n, r.head, g);
  }

  lemma RingFrees(r: Ring, n: nat, slot: nat) returns (g: nat)
    requires RingInv(r, n) && slot < n
    ensures Frees(r, Release(Mark(r, n, slot), n), n, slot, g)
  {
    g := ReleaseClears(Mark(r, n, slot), n);
    ClearsIsFrees(r, Release(Mark(r, n, slot), n), n, slot, g);
  }

  /** Everything but the rings stays, except that one retirement is counted. */
  predicate CountsRetirement(s: V72, next: V72) {
    && next.meta == s.meta && next.metaTail == s.metaTail && next.metaCount == s.metaCount && next.nextExt == s.nextExt
    && next.retirements == (s.retirements + 1) % 0x1_0000_0000_0000_0000
    && next.allocations == s.allocations && next.stalls == s.stalls && next.cycle == s.cycle
  }

  /** Retiring a tag whose metadata name an extension ring that is not empty finishes the slot they name there
    * and releases the finished front of that ring; the main ring and the other extension rings stay. */
  lemma RetireSpilled(s: V72, tag: nat) returns (g: nat)
    requires Inv72(s) && tag < 1568 && s.meta[tag].bank < 7 && s.ext[s.meta[tag].bank].count > 0
    ensures var (status, next) := Retire72(s, tag);
            var b, slot := s.meta[tag].bank, s.meta[tag].slot;
            && status == Success && |next.ext| == 7 && Frees(s.ext[b], next.ext[b], 9362, slot, g)
            && next.extCounts == s.extCounts[b := s.extCounts[b] - g]
            && (forall i :: 0 <= i < 7 && i != b ==> next.ext[i] == s.ext[i])
            && next.main == s.main && next.mainCount == s.mainCount && CountsRetirement(s, next)
  {
    g := RingFrees(s.ext[s.meta[tag].bank], EXT_ENTRIES, s.meta[tag].slot);
  }

  /** Retiring a tag whose metadata name the main ring does the same there. */
  lemma RetireMain(s: V72, tag: nat) returns (g: nat)
    requires Inv72(s) && tag < 1568 && s.meta[tag].bank == 0xFFFF_FFFF && s.main.count > 0
    ensures var (status, next) := Retire72(s, tag);
            && status == Success && Frees(s.main, next.main, 1568, s.meta[tag].slot, g)
            && next.mainCount == s.mainCount - g
            && next.ext == s.ext && next.extCounts == s.extCounts && CountsRetirement(s, next)
  {
    g := RingFrees(s.main, MAIN_ENTRIES, s.meta[tag].slot);
  }

  /** In all other cases retiring changes nothing: the tag is out of range, or its ring is empty. */
  lemma RetireRefused(s: V72, tag: nat)
    requires Inv72(s)
    ensures tag >= 1568 ==> Retire72(s, tag) == (InvalidParameter, s)
    ensures tag < 1568 && s.meta[tag].bank == 0xFFFF_FFFF && s.main.count == 0 ==> Retire72(s, tag) == (NotReady, s)
    ensures tag < 1568 && s.meta[tag].bank < 7 && s.ext[s.meta[tag].bank].count == 0 ==>
              Retire72(s, tag) == (NotReady, s)
  {
  }

  /** A spilled entry that is the oldest of its ring comes back: retiring the tag the spill returned frees the
    * slot the spill filled and leaves the ring empty again. */
  lemma SpillThenRetire(s: V72, rip: Word, start: Word, count: Word32) returns (b: nat)
    requires Inv72(s) && s.main.count == 1568 && forall i :: 0 <= i < 7 ==> s.ext[i].count == 0
    ensures var (tag, spilled) := Allocate72(s, rip, start, count);
            && tag.Some? && b < 7 && Inv72(spilled) && spilled.ext[b].count == 1
            && var (status, next) := Retire72(spilled, tag.value);
               status == Success && |next.ext| == 7 && next.ext[b].count == 0 && next.main == s.main
  {
    assert s.ext[0].count < 9362;
    b := SpillResults(s, rip, start, count);
    var spilled := Allocate72(s, rip, start, count).1;
    var g := RetireSpilled(spilled, s.metaTail);
  }
}

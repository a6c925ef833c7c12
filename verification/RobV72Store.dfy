/**
 * The compressed reorder buffer as it is stored: ring objects with entry arrays, a metadata array and
 * the doubled counters, updated in place and proved against module RobV72.
 */
module RobV72Store {
  import opened Words
  import opened RobQueue
  import opened RobV72

  class RingBuffer {
    var head: nat
    var tail: nat
    var count: nat
    const entries: array<Compressed>

    constructor (n: nat)
      requires n > 0
      ensures fresh(entries) && entries.Length == n
      ensures AsRing() == EmptyRing(n) && RingInv(AsRing(), n)
    {
      head, tail, count := 0, 0, 0;
      entries := new Compressed[n](_ => ZERO_ENTRY);
    }

    ghost function AsRing(): Ring
      reads this, entries
    {
      Ring(head, tail, count, entries[..])
    }

    method PushTag(tag: nat)
      requires RingInv(AsRing(), entries.Length) && count < entries.Length
      modifies this, entries
      ensures AsRing() == Push(old(AsRing()), entries.Length, tag)
    {
      entries[tail] := Compressed(tag, 0, Allocated);
      tail := Next(entries.Length, tail);
      count := count + 1;
    }

    /** Marks a slot finished and frees finished entries at the front; `freed` is how often the
      * counters are decremented. */
    method RetireSlot(slot: nat) returns (freed: nat)
      requires RingInv(AsRing(), entries.Length) && slot < entries.Length
      modifies this, entries
      ensures AsRing() == Release(Mark(old(AsRing()), entries.Length, slot), entries.Length)
      ensures freed == old(count) - count
    {
      ghost var marked := Mark(AsRing(), entries.Length, slot);
      entries[slot] := entries[slot].(state := Retired);
      assert AsRing() == marked;
      freed := 0;
      while count > 0 && entries[head].state.Retired?
        invariant RingOpen(AsRing(), entries.Length)
        invariant Release(AsRing(), entries.Length) == Release(marked, entries.Length)
        invariant freed == old(count) - count
        decreases count
      {
        ghost var before := AsRing();
        entries[head] := entries[head].(state := Free);
        head := Next(entries.Length, head);
        count := count - 1;
        freed := freed + 1;
        assert AsRing() == ReleaseOne(before, entries.Length);
      }
    }
  }

  class V72Distributor {
    const main: RingBuffer
    const ext: seq<RingBuffer>
    const extCounts: array<nat>
    const meta: array<Meta>
    var mainCount: nat
    var metaTail: nat
    var metaCount: Word32
    var nextExt: nat
    var allocations: Word
    var retirements: Word
    var stalls: Word
    var cycle: Word

    ghost var model: V72

    ghost predicate Separate() {
      && |ext| == EXT_BANKS && extCounts.Length == EXT_BANKS && meta.Length == MAIN_ENTRIES
      && main.entries.Length == MAIN_ENTRIES
      && (forall i :: 0 <= i < EXT_BANKS ==>
            ext[i] != main && ext[i].entries != main.entries && ext[i].entries.Length == EXT_ENTRIES)
      && (forall i, j :: 0 <= i < j < EXT_BANKS ==> ext[i] != ext[j] && ext[i].entries != ext[j].entries)
    }

    static ghost function RingObjects(rings: seq<RingBuffer>): set<object> {
      (set r | r in rings :: r as object) + (set r | r in rings :: r.entries as object)
    }

    ghost function Footprint(): set<object> {
      {this, main, main.entries, extCounts, meta} + RingObjects(ext)
    }

    /** The extension rings, as values. */
    ghost predicate ExtHold(rings: seq<Ring>)
      reads ext, set r | r in ext :: r.entries
    {
      |ext| == |rings| == EXT_BANKS && forall i :: 0 <= i < EXT_BANKS ==> ext[i].AsRing() == rings[i]
    }

    /** The stored fields are those of `m`. */
    ghost predicate Holds(m: V72)
      reads this, main, main.entries, extCounts, meta, ext, set r | r in ext :: r.entries
    {
      && main.AsRing() == m.main && mainCount == m.mainCount
      && ExtHold(m.ext)
      && extCounts[..] == m.extCounts && meta[..] == m.meta
      && metaTail == m.metaTail && metaCount == m.metaCount && nextExt == m.nextExt
      && allocations == m.allocations && retirements == m.retirements && stalls == m.stalls
      && cycle == m.cycle
    }

    ghost predicate Valid()
      reads this, main, main.entries, extCounts, meta, ext, set r | r in ext :: r.entries
    {
      Separate() && Inv72(model) && Holds(model)
    }

    /** Seven separate extension rings, all empty. */
    static method MakeExt() returns (rings: seq<RingBuffer>)
      ensures fresh(RingObjects(rings))
      ensures |rings| == EXT_BANKS
      ensures forall i :: 0 <= i < EXT_BANKS ==>
                fresh(rings[i]) && fresh(rings[i].entries) && rings[i].entries.Length == EXT_ENTRIES
                && rings[i].AsRing() == EmptyRing(EXT_ENTRIES)
      ensures forall i, j :: 0 <= i < j < EXT_BANKS ==> rings[i] != rings[j] && rings[i].entries != rings[j].entries
    {
      rings := [];
      while |rings| < EXT_BANKS
        invariant |rings| <= EXT_BANKS && fresh(RingObjects(rings))
        invariant forall i :: 0 <= i < |rings| ==>
                    fresh(rings[i]) && fresh(rings[i].entries) && rings[i].entries.Length == EXT_ENTRIES
                    && rings[i].AsRing() == EmptyRing(EXT_ENTRIES)
        invariant forall i, j :: 0 <= i < j < |rings| ==> rings[i] != rings[j] && rings[i].entries != rings[j].entries
      {
        var ring := new RingBuffer(EXT_ENTRIES);
        rings := rings + [ring];
      }
    }

    constructor ()
      ensures Valid() && model == Initial()
      ensures fresh(main) && fresh(main.entries) && fresh(extCounts) && fresh(meta) && fresh(RingObjects(ext))
    {
      var m := new RingBuffer(MAIN_ENTRIES);
      var e := MakeExt();
      main := m;
      ext := e;
      extCounts := new nat[EXT_BANKS](_ => 0);
      meta := new Meta[MAIN_ENTRIES](_ => ZERO_META);
      mainCount, metaTail, metaCount, nextExt := 0, 0, 0, 0;
      allocations, retirements, stalls, cycle := 0, 0, 0, 0;
      model := Initial();
      new;
      assert fresh(RingObjects(ext));
      assert main.AsRing() == model.main && ExtHold(model.ext);
      assert extCounts[..] == model.extCounts && meta[..] == model.meta;
    }

    method FindExt() returns (room: Option<nat>)
      requires Valid()
      ensures room == FirstExt(model.ext, model.nextExt)
    {
      var startExt := nextExt;
      var eb: nat := startExt;
      while true
        invariant eb < EXT_BANKS
        invariant ExtFrom(model.ext, startExt, eb) == ExtFrom(model.ext, startExt, startExt)
        decreases EXT_BANKS - Ahead(startExt, eb)
      {
        assert ext[eb].AsRing() == model.ext[eb];
        if ext[eb].count < EXT_ENTRIES {
          return Some(eb);
        }
        ghost var before := eb;
        eb := (eb + 1) % EXT_BANKS;
        if eb == startExt {
          return None;
        }
        AheadNext(startExt, before);
      }
    }

    /** Files the metadata under the next tag. */
    method RecordTag(ghost s: V72, rip: Word, start: Word, count: Word32, bank: Word32, slot: nat)
      requires Separate() && Inv72(s) && Holds(s) && MetaOk(Meta(rip, start, count, bank, slot, s.cycle))
      modifies this`metaTail, this`metaCount, this`allocations, meta
      ensures Holds(Tagged(s, rip, start, count, bank, slot))
    {
      meta[metaTail] := Meta(rip, start, count, bank, slot, cycle);
      metaTail := (metaTail + 1) % MAIN_ENTRIES;
      metaCount := (metaCount + 1) % W32;
      allocations := AddW(allocations, 1);
    }

    method PlaceInMain(rip: Word, start: Word, count: Word32)
      requires Valid() && mainCount < MAIN_ENTRIES
      modifies this, main, main.entries, meta
      ensures Valid() && model == PlacedMain(old(model), rip, start, count)
    {
      var slot := main.tail;
      main.PushTag(metaTail);
      mainCount := mainCount + 1;
      RecordTag(PushedMain(model), rip, start, count, MAIN_BANK, slot);
      model := PlacedMain(model, rip, start, count);
    }

    method PushRing(ghost rings: seq<Ring>, eb: nat, tag: nat)
      requires Separate() && ExtHold(rings) && eb < EXT_BANKS
      requires RingInv(rings[eb], EXT_ENTRIES) && rings[eb].count < EXT_ENTRIES
      modifies ext[eb], ext[eb].entries
      ensures ExtHold(rings[eb := Push(rings[eb], EXT_ENTRIES, tag)]) && main.AsRing() == old(main.AsRing())
    {
      ext[eb].PushTag(tag);
    }

    method RetireRing(ghost rings: seq<Ring>, eb: nat, slot: nat) returns (freed: nat)
      requires Separate() && ExtHold(rings) && eb < EXT_BANKS && RingInv(rings[eb], EXT_ENTRIES) && slot < EXT_ENTRIES
      modifies ext[eb], ext[eb].entries
      ensures var ring := Release(Mark(rings[eb], EXT_ENTRIES, slot), EXT_ENTRIES);
              ExtHold(rings[eb := ring]) && freed == rings[eb].count - ring.count
      ensures main.AsRing() == old(main.AsRing())
    {
      freed := ext[eb].RetireSlot(slot);
    }

    /** Takes the next slot of an extension ring and counts it in both places. */
    method PushExt(ghost s: V72, eb: nat) returns (slot: nat)
      requires Separate() && Inv72(s) && Holds(s) && eb < EXT_BANKS && s.ext[eb].count < EXT_ENTRIES
      modifies ext[eb], ext[eb].entries, extCounts, this`nextExt
      ensures slot == s.ext[eb].tail && Holds(PushedExt(s, eb))
    {
      nextExt := (eb + 1) % EXT_BANKS;
      slot := ext[eb].tail;
      PushRing(s.ext, eb, metaTail);
      extCounts[eb] := extCounts[eb] + 1;
      assert extCounts[..] == PushedExt(s, eb).extCounts;
    }

    method PlaceInExt(eb: nat, rip: Word, start: Word, count: Word32)
      requires Valid() && eb < EXT_BANKS && model.ext[eb].count < EXT_ENTRIES
      modifies this, ext[eb], ext[eb].entries, extCounts, meta
      ensures Valid() && model == PlacedExt(old(model), eb, rip, start, count)
    {
      var slot := PushExt(model, eb);
      RecordTag(PushedExt(model, eb), rip, start, count, eb, slot);
      model := PlacedExt(model, eb, rip, start, count);
    }

    method RetireInMain(slot: nat)
      requires Valid() && slot < MAIN_ENTRIES
      modifies this, main, main.entries
      ensures Valid() && model == RetiredMain(old(model), slot)
    {
      model := RetiredMain(model, slot);
      var freed := main.RetireSlot(slot);
      mainCount := mainCount - freed;
      retirements := AddW(retirements, 1);
    }

    /** Finishes a slot of an extension ring and frees its front. */
    method FinishExt(ghost s: V72, eb: nat, slot: nat)
      requires Separate() && Inv72(s) && Holds(s) && eb < EXT_BANKS && slot < EXT_ENTRIES
      modifies ext[eb], ext[eb].entries, extCounts
      ensures Holds(FinishedExt(s, eb, slot))
    {
      var freed := RetireRing(s.ext, eb, slot);
      extCounts[eb] := extCounts[eb] - freed;
    }

    method RetireInExt(eb: nat, slot: nat)
      requires Valid() && eb < EXT_BANKS && slot < EXT_ENTRIES
      modifies this, ext[eb], ext[eb].entries, extCounts
      ensures Valid() && model == RetiredExt(old(model), eb, slot)
    {
      FinishExt(model, eb, slot);
      retirements := AddW(retirements, 1);
      model := RetiredExt(model, eb, slot);
    }

    method AllocateEntry(rip: Word, start: Word, count: Word32) returns (tag: Option<nat>)
      requires Valid()
      modifies Footprint()
      ensures Valid()
      ensures (tag, model) == Allocate72(old(model), rip, start, count)
    {
      tag := Some(metaTail);
      if mainCount < MAIN_ENTRIES {
        PlaceInMain(rip, start, count);
        return;
      }
      var room := FindExt();
      if room.None? {
        stalls := AddW(stalls, 1);
        model := model.(stalls := AddW(model.stalls, 1));
        return None;
      }
      assert ext[room.value] in ext;
      PlaceInExt(room.value, rip, start, count);
    }

    method Tick()
      requires Valid()
      modifies this`cycle, this`model
      ensures Valid() && model == Apply72(old(model), DoTick72)
    {
      cycle := AddW(cycle, 1);
      model := Apply72(model, DoTick72);
    }

    method RetireEntry(tag: nat) returns (status: Status)
      requires Valid()
      modifies Footprint()
      ensures Valid()
      ensures (status, model) == Retire72(old(model), tag)
    {
      if tag >= MAIN_ENTRIES {
        return InvalidParameter;
      }
      var m := meta[tag];
      assert m == model.meta[tag];
      if m.bank == MAIN_BANK {
        if main.count == 0 {
          return NotReady;
        }
        RetireInMain(m.slot);
      } else {
        assert ext[m.bank].AsRing() == model.ext[m.bank];
        if ext[m.bank].count == 0 {
          return NotReady;
        }
        assert ext[m.bank] in ext;
        RetireInExt(m.bank, m.slot);
      }
      return Success;
    }
  }
}

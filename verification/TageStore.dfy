/** The predictor as it is stored: tables, target buffer and counters updated in place. */
module TageStore {
  import opened Words
  import opened T = Tage

  class TagePredictor {
    /** Four tables of 4096 entries, row after row. */
    const tables: array<Entry>
    const btb: array<T.Target>
    var predictions: Word
    var correct: Word
    var mispredictions: Word

    ghost predicate Valid() { tables.Length == TABLES * ENTRIES && btb.Length == BTB_ENTRIES }

    ghost function State(): T.Tage
      requires Valid()
      reads this, tables, btb
    {
      T.Tage(tables[..], btb[..], predictions, correct, mispredictions)
    }

    constructor ()
      ensures Valid() && fresh(tables) && fresh(btb) && Shape(State())
      ensures Unused(State()) && NoTargets(State())
      ensures forall rip, t :: 0 <= t < TABLES ==> !Matches(State(), rip, t) && Allocatable(State(), rip, t)
      ensures predictions == correct == mispredictions == 0
    {
      tables := new Entry[TABLES * ENTRIES](_ => Entry(0, 0, false, false));
      btb := new T.Target[BTB_ENTRIES](_ => T.Target(0, 0, 0, false));
      predictions, correct, mispredictions := 0, 0, 0;
    }

    /** The search from table 3 down to 0. */
    method FindProvider(rip: Word) returns (p: int)
      requires Valid()
      ensures p == Best(State(), rip)
    {
      p := TABLES - 1;
      while p >= 0
        invariant -1 <= p < TABLES
        invariant Provider(State(), rip, p) == Best(State(), rip)
        decreases p
      {
        var entry := tables[Slot(rip, p)];
        assert entry == EntryOf(State(), rip, p);
        if entry.valid && entry.tag == Tag(rip, p) {
          return;
        }
        p := p - 1;
      }
    }

    method LookupTarget(rip: Word) returns (hit: bool, target: Word)
      requires Valid()
      ensures hit == BtbHit(State(), rip) && target == PredictTarget(State(), rip)
    {
      var i := BtbIndex(rip);
      var slot := btb[i];
      assert State().btb[i] == slot;
      hit := slot.valid && slot.rip == rip;
      target := AddW(rip, 4);
      if hit {
        target := slot.address;
      }
    }

    method PredictBranch(rip: Word) returns (taken: bool, target: Word)
      requires Valid()
      ensures taken == Predict(State(), rip) && target == PredictTarget(State(), rip)
    {
      taken, target := LookupTarget(rip);
      var p := FindProvider(rip);
      if p >= 0 {
        var entry := tables[Slot(rip, p)];
        assert entry == EntryOf(State(), rip, p);
        taken := entry.taken;
      }
    }

    /** The first table with a free or unused entry gets a new one. */
    method AllocateEntry(rip: Word, taken: bool)
      requires Valid()
      modifies tables
      ensures State().tables == (var s := old(State()); var v := FirstFree(s, rip);
                                 if v < TABLES then WithEntry(s, rip, v, Entry(Tag(rip, v), 0, taken, true)).tables
                                 else s.tables)
    {
      var t: nat := 0;
      while t < TABLES
        invariant t <= TABLES && State() == old(State())
        invariant Victim(State(), rip, t) == FirstFree(State(), rip)
        decreases TABLES - t
      {
        var entry := tables[Slot(rip, t)];
        assert entry == EntryOf(State(), rip, t);
        if !entry.valid || entry.useful == 0 {
          tables[Slot(rip, t)] := Entry(Tag(rip, t), 0, taken, true);
          return;
        }
        t := t + 1;
      }
    }

    /** Trains the entry that made the prediction. */
    method TrainEntry(rip: Word, p: nat, taken: bool)
      requires Valid() && p < TABLES
      modifies this`correct, this`mispredictions, tables
      ensures tables[..] == WithEntry(old(State()), rip, p, Trained(EntryOf(old(State()), rip, p), taken)).tables
      ensures var agreed := EntryOf(old(State()), rip, p).taken == taken;
              && correct == (if agreed then AddW(old(correct), 1) else old(correct))
              && mispredictions == (if agreed then old(mispredictions) else AddW(old(mispredictions), 1))
    {
      var i := Slot(rip, p);
      var entry := tables[i];
      if entry.taken == taken {
        if entry.useful < 7 {
          tables[i] := entry.(useful := entry.useful + 1);
        }
        correct := AddW(correct, 1);
      } else {
        if entry.useful > 0 {
          tables[i] := entry.(useful := entry.useful - 1);
        } else {
          tables[i] := entry.(taken := taken);
        }
        mispredictions := AddW(mispredictions, 1);
      }
    }

    method UpdateBranch(rip: Word, taken: bool, target: Word)
      requires Valid()
      modifies this, tables, btb
      ensures State() == Update(old(State()), rip, taken, target)
    {
      ghost var before := State();
      predictions := AddW(predictions, 1);
      var p := FindProvider(rip);
      NothingChanges(before, State(), rip);
      if p != -1 {
        TrainEntry(rip, p, taken);
      } else {
        AllocateEntry(rip, taken);
      }
      btb[BtbIndex(rip)] := T.Target(rip, target, rip / 0x1000, true);
    }
  }
}

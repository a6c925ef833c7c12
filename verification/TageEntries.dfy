/** Which branches share what in the TAGE predictor, in terms of address bits, and what entries hold over
  * runs. */
module TageEntries {
  import opened Words
  import opened Bits
  import opened Tage
  import BitOps

  // ---- sharing -------------------------------------------------------------

  /** The addresses agree on these bits. */
  predicate AgreeOn(a: Word, b: Word, low: nat, high: nat) {
    forall k :: low <= k <= high ==> Bit(a, k) == Bit(b, k)
  }

  lemma IndexBit(a: Word, t: nat, j: nat)
    requires t < 4 && j < 12
    ensures Bit(Index(a, t), j) == Bit(a, j + (4 * t + 2))
  {
    assert Pow2(12) == 0x1000;
    BitOfRemainder(ShrW(a, 4 * t + 2), 12, j);
    BitOps.ShrBits(a, 4 * t + 2, j);
  }

  lemma RowInjective(t: nat, i: nat, j: nat)
    ensures t * ENTRIES + i == t * ENTRIES + j <==> i == j
  {
  }

  /** Two branches share their entry of table `t` exactly if their addresses agree on the twelve bits from
    * 4t + 2 to 4t + 13. */
  lemma SharesEntry(a: Word, b: Word, t: nat)
    requires t < 4
    ensures Slot(a, t) == Slot(b, t) <==> AgreeOn(a, b, 4 * t + 2, 4 * t + 13)
  {
    RowInjective(t, Index(a, t), Index(b, t));
    assert Pow2(12) == 0x1000;
    SameBits(Index(a, t), Index(b, t), 12);
    forall j | 0 <= j < 12
      ensures (Bit(Index(a, t), j) == Bit(Index(b, t), j)) == (Bit(a, j + (4 * t + 2)) == Bit(b, j + (4 * t + 2)))
    {
      IndexBit(a, t, j);
      IndexBit(b, t, j);
    }
    if Index(a, t) == Index(b, t) {
      forall k | 4 * t + 2 <= k <= 4 * t + 13 ensures Bit(a, k) == Bit(b, k) {
        assert Bit(Index(a, t), k - (4 * t + 2)) == Bit(Index(b, t), k - (4 * t + 2));
      }
    }
  }

  /** Two branches share their target-buffer entry exactly if their addresses agree on the low 13 bits. */
  lemma SharesTarget(a: Word, b: Word)
    ensures BtbIndex(a) == BtbIndex(b) <==> AgreeOn(a, b, 0, 12)
  {
    assert Pow2(13) == 0x2000;
    SameBits(BtbIndex(a), BtbIndex(b), 13);
    forall k | 0 <= k < 13 ensures Bit(BtbIndex(a), k) == Bit(a, k) && Bit(BtbIndex(b), k) == Bit(b, k) {
      BitOfRemainder(a, 13, k);
      BitOfRemainder(b, 13, k);
    }
  }

  lemma ApartIs(a: Word, b: Word)
    ensures Apart(a, b) <==>
            && Slot(a, 0) != Slot(b, 0) && Slot(a, 1) != Slot(b, 1) && Slot(a, 2) != Slot(b, 2)
            && Slot(a, 3) != Slot(b, 3) && BtbIndex(a) != BtbIndex(b)
  {
  }

  /** Branches are apart exactly if their addresses differ somewhere in each of the five windows. */
  lemma ApartIffBitsDiffer(a: Word, b: Word)
    ensures Apart(a, b) <==>
            && !AgreeOn(a, b, 2, 13) && !AgreeOn(a, b, 6, 17) && !AgreeOn(a, b, 10, 21) && !AgreeOn(a, b, 14, 25)
            && !AgreeOn(a, b, 0, 12)
  {
    ApartIs(a, b);
    SharesEntry(a, b, 0);
    SharesEntry(a, b, 1);
    SharesEntry(a, b, 2);
    SharesEntry(a, b, 3);
    SharesTarget(a, b);
  }

  // ---- confusion -----------------------------------------------------------

  /** The predictor takes the branches for one another in table `t`. */
  predicate Alias(a: Word, b: Word, t: nat)
    requires t < 4
  {
    Slot(a, t) == Slot(b, t) && Tag(a, t) == Tag(b, t)
  }

  lemma TagBit(a: Word, t: nat, k: nat)
    requires t < 4
    ensures Bit(Tag(a, t), k) == (Bit(a, k + (4 * t + 6)) != (k < 12 && Bit(a, k)))
  {
    BitOps.LogicBits(ShrW(a, 4 * t + 6), a % 0x1000, k);
    BitOps.ShrBits(a, 4 * t + 6, k);
    assert Pow2(12) == 0x1000;
    if k < 12 {
      BitOfRemainder(a, 12, k);
    } else {
      BitOps.NoBitBeyond(a % 0x1000, 12, k);
    }
  }

  /** Bit `k` of the tags agrees. */
  predicate TagBitAgrees(a: Word, b: Word, t: nat, k: nat) {
    (Bit(a, k + (4 * t + 6)) == Bit(b, k + (4 * t + 6))) == (k < 12 ==> Bit(a, k) == Bit(b, k))
  }

  lemma SameTag(a: Word, b: Word, t: nat)
    requires t < 4
    ensures Tag(a, t) == Tag(b, t) <==> forall k :: 0 <= k < 64 ==> TagBitAgrees(a, b, t, k)
  {
    BitOps.PowerOf64();
    SameBits(Tag(a, t), Tag(b, t), 64);
    forall k | 0 <= k < 64 ensures TagBitAgrees(a, b, t, k) == (Bit(Tag(a, t), k) == Bit(Tag(b, t), k)) {
      TagBit(a, t, k);
      TagBit(b, t, k);
    }
  }

  /** Entry and tag agree exactly if the window, the bits above it and the mixed low bits do. */
  lemma AliasBits(a: Word, b: Word, t: nat)
    requires t < 4
    ensures Alias(a, b, t) <==>
            && AgreeOn(a, b, 4 * t + 2, 4 * t + 13) && AgreeOn(a, b, 4 * t + 18, 63)
            && forall k :: 0 <= k < 12 ==> TagBitAgrees(a, b, t, k)
  {
    SharesEntry(a, b, t);
    SameTag(a, b, t);
    if Alias(a, b, t) {
      forall k | 4 * t + 18 <= k <= 63 ensures Bit(a, k) == Bit(b, k) {
        assert TagBitAgrees(a, b, t, k - (4 * t + 6));
      }
    }
    if AgreeOn(a, b, 4 * t + 18, 63) {
      forall k | 12 <= k < 64 ensures TagBitAgrees(a, b, t, k) {
        BitOps.PowerOf64();
        if k + (4 * t + 6) >= 64 {
          BitOps.NoBitBeyond(a, 64, k + (4 * t + 6));
          BitOps.NoBitBeyond(b, 64, k + (4 * t + 6));
        }
      }
    }
  }

  /** In tables 0 and 1 entry and tag identify the branch. */
  lemma AliasLow(a: Word, b: Word, t: nat)
    requires t < 2
    ensures Alias(a, b, t) <==> a == b
  {
    AliasBits(a, b, t);
    BitOps.PowerOf64();
    SameBits(a, b, 64);
    if Alias(a, b, t) {
      forall k | 0 <= k < 64 ensures Bit(a, k) == Bit(b, k) {
        LowBitAgrees(a, b, t, k);
      }
    }
  }

  lemma LowBitAgrees(a: Word, b: Word, t: nat, k: nat)
    requires t < 2 && k < 64
    requires AgreeOn(a, b, 4 * t + 2, 4 * t + 13) && AgreeOn(a, b, 4 * t + 18, 63)
    requires forall j :: 0 <= j < 12 ==> TagBitAgrees(a, b, t, j)
    ensures Bit(a, k) == Bit(b, k)
  {
    if k < 4 * t + 2 {
      assert TagBitAgrees(a, b, t, k);
    } else if 4 * t + 13 < k < 4 * t + 18 {
      assert TagBitAgrees(a, b, t, k - (4 * t + 6));
    }
  }

  /** Agreement on all bits but 8, 9, 22 and 23, and difference on 8 and 22 alike and on 9 and 23 alike. */
  predicate TwinsHigh(a: Word, b: Word) {
    && AgreeOn(a, b, 0, 7) && AgreeOn(a, b, 10, 21) && AgreeOn(a, b, 24, 63)
    && ((Bit(a, 8) == Bit(b, 8)) == (Bit(a, 22) == Bit(b, 22)))
    && ((Bit(a, 9) == Bit(b, 9)) == (Bit(a, 23) == Bit(b, 23)))
  }

  lemma TwinsHighTags(a: Word, b: Word, k: nat)
    requires TwinsHigh(a, b) && k < 12
    ensures TagBitAgrees(a, b, 2, k)
  {
    if k <= 7 {
      assert Bit(a, k + 14) == Bit(b, k + 14);
    } else if k >= 10 {
      assert Bit(a, k + 14) == Bit(b, k + 14);
    } else {
      assert k == 8 || k == 9;
    }
  }

  lemma AliasIsTwins(a: Word, b: Word)
    requires AgreeOn(a, b, 10, 21) && AgreeOn(a, b, 26, 63) && forall k :: 0 <= k < 12 ==> TagBitAgrees(a, b, 2, k)
    ensures TwinsHigh(a, b)
  {
    forall k | 0 <= k <= 7 ensures Bit(a, k) == Bit(b, k) {
      assert TagBitAgrees(a, b, 2, k);
      assert Bit(a, k + 14) == Bit(b, k + 14);
    }
    assert TagBitAgrees(a, b, 2, 8) && TagBitAgrees(a, b, 2, 9);
    forall k | 24 <= k <= 63 ensures Bit(a, k) == Bit(b, k) {
      if k < 26 {
        assert TagBitAgrees(a, b, 2, k - 14);
        assert Bit(a, k - 14) == Bit(b, k - 14);
      }
    }
  }

  /** In table 2 exactly these branches are taken for one another. */
  lemma AliasHigh(a: Word, b: Word)
    ensures Alias(a, b, 2) <==> TwinsHigh(a, b)
  {
    AliasBits(a, b, 2);
    if Alias(a, b, 2) {
      AliasIsTwins(a, b);
    }
    if TwinsHigh(a, b) {
      forall k | 0 <= k < 12 ensures TagBitAgrees(a, b, 2, k) {
        TwinsHighTags(a, b, k);
      }
    }
  }

  /** Agreement on all bits but 8 to 13 and 26 to 29, and difference on each of 8 to 11 as on the bit 18 above. */
  predicate TwinsTop(a: Word, b: Word) {
    && AgreeOn(a, b, 0, 7) && AgreeOn(a, b, 14, 25) && AgreeOn(a, b, 30, 63)
    && forall k :: 8 <= k <= 11 ==> (Bit(a, k) == Bit(b, k)) == (Bit(a, k + 18) == Bit(b, k + 18))
  }

  /** In table 3 exactly these branches are taken for one another; bits 12 and 13 play no part. */
  lemma AliasTop(a: Word, b: Word)
    ensures Alias(a, b, 3) <==> TwinsTop(a, b)
  {
    AliasBits(a, b, 3);
    if Alias(a, b, 3) {
      forall k | 0 <= k <= 7 ensures Bit(a, k) == Bit(b, k) {
        assert TagBitAgrees(a, b, 3, k);
        assert Bit(a, k + 18) == Bit(b, k + 18);
      }
      forall k | 8 <= k <= 11 ensures (Bit(a, k) == Bit(b, k)) == (Bit(a, k + 18) == Bit(b, k + 18)) {
        assert TagBitAgrees(a, b, 3, k);
      }
    }
    if TwinsTop(a, b) {
      forall k | 0 <= k < 12 ensures TagBitAgrees(a, b, 3, k) {
        if k <= 7 {
          assert Bit(a, k + 18) == Bit(b, k + 18);
        }
      }
    }
  }

  // ---- what entries hold ---------------------------------------------------

  /** The branch's entry in table `t` is in use and carries its tag. */
  predicate Serves(s: Tage, rip: Word, t: nat)
    requires Shape(s) && t < 4
  {
    EntryOf(s, rip, t).valid && EntryOf(s, rip, t).tag == Tag(rip, t)
  }

  /** Table `t` is the highest that serves the branch. */
  predicate IsProvider(s: Tage, rip: Word, t: nat)
    requires Shape(s) && t < 4
  {
    Serves(s, rip, t) && forall u :: t < u < 4 ==> !Serves(s, rip, u)
  }

  predicate Unserved(s: Tage, rip: Word)
    requires Shape(s)
  {
    forall t :: 0 <= t < 4 ==> !Serves(s, rip, t)
  }

  lemma BestMeans(s: Tage, rip: Word)
    requires Shape(s)
    ensures forall t :: 0 <= t < 4 ==> (IsProvider(s, rip, t) <==> Best(s, rip) == t)
    ensures Unserved(s, rip) <==> Best(s, rip) == -1
  {
    forall t | 0 <= t < 4 ensures Serves(s, rip, t) == Matches(s, rip, t) {
    }
  }

  /** The highest table that serves a branch predicts its direction; without one, a branch is predicted taken
    * exactly if the target buffer holds its address. */
  lemma PredictMeans(s: Tage, rip: Word)
    requires Shape(s)
    ensures forall t :: 0 <= t < 4 && IsProvider(s, rip, t) ==> Predict(s, rip) == EntryOf(s, rip, t).taken
    ensures Unserved(s, rip) ==> Predict(s, rip) == (s.btb[rip % 8192].valid && s.btb[rip % 8192].rip == rip)
  {
    BestMeans(s, rip);
  }

  /** Agreement raises the confidence up to 7; disagreement lowers it or, at 0, turns the direction round. */
  predicate TrainedTo(e: Entry, taken: bool, n: Entry) {
    && n.valid == e.valid && n.tag == e.tag
    && if e.taken == taken then n.taken == taken && n.useful == Min(7, e.useful + 1)
       else if e.useful > 0 then n.taken == e.taken && n.useful == e.useful - 1
       else n.taken == taken && n.useful == 0
  }

  predicate SameTablesBut(s: Tage, d: Tage, i: nat) {
    |d.tables| == |s.tables| && forall j :: 0 <= j < |s.tables| && j != i ==> d.tables[j] == s.tables[j]
  }

  /** An update trains the entry that made the prediction and no other. */
  lemma UpdateServed(s: Tage, rip: Word, taken: bool, target: Word, t: nat)
    requires Shape(s) && t < 4 && IsProvider(s, rip, t)
    ensures var d, e := Update(s, rip, taken, target), EntryOf(s, rip, t);
            && TrainedTo(e, taken, EntryOf(d, rip, t)) && SameTablesBut(s, d, Slot(rip, t))
            && d.predictions == (s.predictions + 1) % 0x1_0000_0000_0000_0000
            && d.correct == (if e.taken == taken then (s.correct + 1) % 0x1_0000_0000_0000_0000 else s.correct)
            && d.mispredictions
               == if e.taken == taken then s.mispredictions else (s.mispredictions + 1) % 0x1_0000_0000_0000_0000
  {
    BestMeans(s, rip);
  }

  /** The branch's entry in table `t` is unused or has confidence 0, and in no lower table is it so. */
  predicate IsFirstFree(s: Tage, rip: Word, t: nat)
    requires Shape(s) && t < 4
  {
    && (!EntryOf(s, rip, t).valid || EntryOf(s, rip, t).useful == 0)
    && forall u :: 0 <= u < t ==> EntryOf(s, rip, u).valid && EntryOf(s, rip, u).useful > 0
  }

  lemma FirstFreeMeans(s: Tage, rip: Word)
    requires Shape(s)
    ensures forall t :: 0 <= t < 4 ==> (IsFirstFree(s, rip, t) <==> FirstFree(s, rip) == t)
    ensures (forall t :: 0 <= t < 4 ==> !IsFirstFree(s, rip, t)) <==> FirstFree(s, rip) == 4
  {
    forall t | 0 <= t < 4
      ensures Allocatable(s, rip, t) == (!EntryOf(s, rip, t).valid || EntryOf(s, rip, t).useful == 0)
    {
    }
    if FirstFree(s, rip) < 4 {
      assert IsFirstFree(s, rip, FirstFree(s, rip));
    }
  }

  /** An unserved branch gets its entry in the lowest table where that is unused or has confidence 0: valid,
    * confidence 0, this outcome, and a tag under which exactly its aliases find it; no other entry changes. */
  lemma UpdateAllocatesFirst(s: Tage, rip: Word, taken: bool, target: Word, t: nat)
    requires Shape(s) && t < 4 && Unserved(s, rip) && IsFirstFree(s, rip, t)
    ensures var d := Update(s, rip, taken, target);
            && EntryOf(d, rip, t).valid && EntryOf(d, rip, t).useful == 0 && EntryOf(d, rip, t).taken == taken
            && (forall b :: Slot(b, t) == Slot(rip, t) ==> (Serves(d, b, t) <==> Alias(b, rip, t)))
            && SameTablesBut(s, d, Slot(rip, t))
            && d.predictions == (s.predictions + 1) % 0x1_0000_0000_0000_0000
            && d.correct == s.correct && d.mispredictions == s.mispredictions
  {
    BestMeans(s, rip);
    FirstFreeMeans(s, rip);
  }

  /** An unserved branch whose four entries are all in use with some confidence changes no entry. */
  lemma UpdateFindsNoRoom(s: Tage, rip: Word, taken: bool, target: Word)
    requires Shape(s) && Unserved(s, rip)
    requires forall t :: 0 <= t < 4 ==> EntryOf(s, rip, t).valid && EntryOf(s, rip, t).useful > 0
    ensures var d := Update(s, rip, taken, target);
            && d.tables == s.tables && d.correct == s.correct && d.mispredictions == s.mispredictions
            && d.predictions == (s.predictions + 1) % 0x1_0000_0000_0000_0000
  {
    BestMeans(s, rip);
    FirstFreeMeans(s, rip);
  }

  /** Updates in the direction of the matching entry raise its confidence by one each, up to 7. */
  lemma {:induction false} ConfidenceAfter(s: Tage, rip: Word, taken: bool, targets: seq<Word>)
    requires Shape(s) && Best(s, rip) >= 0 && EntryOf(s, rip, Best(s, rip)).taken == taken
    ensures var d, p := Repeat(s, rip, taken, targets), Best(s, rip);
            && Best(d, rip) == p && EntryOf(d, rip, p).taken == taken
            && EntryOf(d, rip, p).tag == EntryOf(s, rip, p).tag
            && EntryOf(d, rip, p).useful == Min(7, EntryOf(s, rip, p).useful + |targets|)
    decreases |targets|
  {
    if targets != [] {
      UpdateKeepsProvider(s, rip, taken, targets[0]);
      ConfidenceAfter(Update(s, rip, taken, targets[0]), rip, taken, targets[1..]);
    }
  }

  /** The last update of a branch whose address has the same low 13 bits. */
  function LastOn(ops: seq<Outcome>, rip: Word): Option<Outcome> {
    if ops == [] then None
    else if ops[|ops| - 1].rip % 8192 == rip % 8192 then Some(ops[|ops| - 1])
    else LastOn(ops[..|ops| - 1], rip)
  }

  lemma {:induction false} RunLast(s: Tage, ops: seq<Outcome>, op: Outcome)
    requires Shape(s)
    ensures Run(s, ops + [op]) == Update(Run(s, ops), op.rip, op.taken, op.target)
    decreases |ops|
  {
    if ops == [] {
      assert ([] + [op])[1..] == [];
    } else {
      assert (ops + [op])[1..] == ops[1..] + [op];
      RunLast(Update(s, ops[0].rip, ops[0].taken, ops[0].target), ops[1..], op);
    }
  }

  /** The target buffer after an update. */
  lemma UpdateTargets(s: Tage, op: Outcome, rip: Word)
    requires Shape(s)
    ensures Shape(Update(s, op.rip, op.taken, op.target))
    ensures Update(s, op.rip, op.taken, op.target).btb[BtbIndex(rip)]
            == if BtbIndex(op.rip) == BtbIndex(rip) then Target(op.rip, op.target, op.rip / 4096, true)
               else s.btb[BtbIndex(rip)]
  {
  }

  /** What is recorded under a branch's low 13 bits. */
  function Recorded(last: Option<Outcome>, unused: Target): Target {
    if last.Some? then Target(last.value.rip, last.value.target, last.value.rip / 4096, true) else unused
  }

  lemma {:induction false} TargetOverRun(s: Tage, ops: seq<Outcome>, rip: Word)
    requires Shape(s)
    ensures Run(s, ops).btb[BtbIndex(rip)] == Recorded(LastOn(ops, rip), s.btb[BtbIndex(rip)])
    decreases |ops|
  {
    if ops != [] {
      var n := |ops| - 1;
      assert ops == ops[..n] + [ops[n]];
      RunLast(s, ops[..n], ops[n]);
      TargetOverRun(s, ops[..n], rip);
      UpdateTargets(Run(s, ops[..n]), ops[n], rip);
    }
  }

  /** Over every run from an empty target buffer: the target of a branch is the one last recorded if no branch
    * with the same low 13 bits has been seen since, and the address plus 4 otherwise. */
  lemma TargetsOverRuns(s: Tage, ops: seq<Outcome>, rip: Word)
    requires Shape(s) && NoTargets(s)
    ensures var d, last := Run(s, ops), LastOn(ops, rip);
            && (BtbHit(d, rip) <==> last.Some? && last.value.rip == rip)
            && PredictTarget(d, rip)
               == if BtbHit(d, rip) then last.value.target else (rip + 4) % 0x1_0000_0000_0000_0000
  {
    TargetOverRun(s, ops, rip);
  }
}

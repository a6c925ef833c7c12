/** The TAGE branch predictor: four tagged tables with hysteresis over a branch target buffer. */
module Tage {
  import opened Words

  const TABLES := 4
  const ENTRIES := 4096
  const BTB_ENTRIES := 8192

  type Useful = u: int | 0 <= u <= 7

  datatype Entry = Entry(tag: Word, useful: Useful, taken: bool, valid: bool)

  datatype Target = Target(rip: Word, address: Word, tag: Word, valid: bool)

  /** The four tables, row after row, the target buffer and the counters. */
  datatype Tage = Tage(
    tables: seq<Entry>, btb: seq<Target>, predictions: Word, correct: Word, mispredictions: Word)

  predicate Shape(s: Tage) { |s.tables| == TABLES * ENTRIES && |s.btb| == BTB_ENTRIES }

  /** Twelve bits of the address from bit 4t + 2 on. */
  function Index(rip: Word, t: nat): (i: nat)
    requires t < TABLES
    ensures i < ENTRIES
  {
    ShrW(rip, 4 * t + 2) % ENTRIES
  }

  /** The address from bit 4t + 6 on, mixed with its low twelve bits. */
  function Tag(rip: Word, t: nat): Word
    requires t < TABLES
  {
    XorW(ShrW(rip, 4 * t + 6), rip % 0x1000)
  }

  function BtbIndex(rip: Word): (i: nat)
    ensures i < BTB_ENTRIES
  {
    rip % BTB_ENTRIES
  }

  /** Position of a branch's entry in table `t`. */
  function Slot(rip: Word, t: nat): (i: nat)
    requires t < TABLES
    ensures t * ENTRIES <= i < (t + 1) * ENTRIES
  {
    t * ENTRIES + Index(rip, t)
  }

  function EntryOf(s: Tage, rip: Word, t: nat): Entry
    requires Shape(s) && t < TABLES
  {
    s.tables[Slot(rip, t)]
  }

  predicate Matches(s: Tage, rip: Word, t: nat)
    requires Shape(s) && t < TABLES
  {
    EntryOf(s, rip, t).valid && EntryOf(s, rip, t).tag == Tag(rip, t)
  }

  predicate Allocatable(s: Tage, rip: Word, t: nat)
    requires Shape(s) && t < TABLES
  {
    !EntryOf(s, rip, t).valid || EntryOf(s, rip, t).useful == 0
  }

  /** The highest matching table at or below `t`, or -1. */
  function Provider(s: Tage, rip: Word, t: int): (p: int)
    requires Shape(s) && -1 <= t < TABLES
    ensures -1 <= p <= t && (p >= 0 ==> Matches(s, rip, p))
    ensures forall j :: p < j <= t ==> !Matches(s, rip, j)
    decreases t + 1
  {
    if t == -1 || Matches(s, rip, t) then t else Provider(s, rip, t - 1)
  }

  /** The lowest allocatable table at or above `t`, or TABLES. */
  function Victim(s: Tage, rip: Word, t: nat): (v: nat)
    requires Shape(s) && t <= TABLES
    ensures t <= v <= TABLES && (v < TABLES ==> Allocatable(s, rip, v))
    ensures forall j :: t <= j < v ==> !Allocatable(s, rip, j)
    decreases TABLES - t
  {
    if t == TABLES || Allocatable(s, rip, t) then t else Victim(s, rip, t + 1)
  }

  /** The table whose entry predicts this branch, or -1. */
  function Best(s: Tage, rip: Word): (p: int)
    requires Shape(s)
    ensures -1 <= p < TABLES && (p >= 0 ==> Matches(s, rip, p))
    ensures forall j :: p < j < TABLES ==> !Matches(s, rip, j)
  {
    Provider(s, rip, |s.tables| / ENTRIES - 1)
  }

  /** The first table with an entry that can be given to this branch, or TABLES. */
  function FirstFree(s: Tage, rip: Word): (v: nat)
    requires Shape(s)
    ensures v <= TABLES && (v < TABLES ==> Allocatable(s, rip, v))
    ensures forall j :: 0 <= j < v ==> !Allocatable(s, rip, j)
  {
    Victim(s, rip, TABLES - |s.tables| / ENTRIES)
  }

  predicate BtbHit(s: Tage, rip: Word)
    requires Shape(s)
  {
    s.btb[BtbIndex(rip)].valid && s.btb[BtbIndex(rip)].rip == rip
  }

  function Predict(s: Tage, rip: Word): bool
    requires Shape(s)
  {
    var p := Best(s, rip);
    if p >= 0 then EntryOf(s, rip, p).taken else BtbHit(s, rip)
  }

  function PredictTarget(s: Tage, rip: Word): Word
    requires Shape(s)
  {
    if BtbHit(s, rip) then s.btb[BtbIndex(rip)].address else AddW(rip, 4)
  }

  function WithEntry(s: Tage, rip: Word, t: nat, e: Entry): Tage
    requires Shape(s) && t < TABLES
  {
    s.(tables := s.tables[Slot(rip, t) := e])
  }

  /** A matching entry after the outcome: agreement strengthens it, disagreement weakens it and, at
    * zero, turns it round. */
  function Trained(e: Entry, taken: bool): Entry {
    if e.taken == taken then e.(useful := if e.useful < 7 then e.useful + 1 else 7)
    else if e.useful > 0 then e.(useful := e.useful - 1)
    else e.(taken := taken)
  }

  function WithTarget(s: Tage, rip: Word, address: Word): Tage
    requires Shape(s)
  {
    s.(btb := s.btb[BtbIndex(rip) := Target(rip, address, rip / 0x1000, true)])
  }

  function Learn(s: Tage, rip: Word, taken: bool): Tage
    requires Shape(s)
  {
    var p := Best(s, rip);
    if p >= 0 then
      var e := EntryOf(s, rip, p);
      var d := WithEntry(s, rip, p, Trained(e, taken));
      if e.taken == taken then d.(correct := AddW(s.correct, 1)) else d.(mispredictions := AddW(s.mispredictions, 1))
    else
      var v := FirstFree(s, rip);
      if v < TABLES then WithEntry(s, rip, v, Entry(Tag(rip, v), 0, taken, true)) else s
  }

  function Update(s: Tage, rip: Word, taken: bool, target: Word): (r: Tage)
    requires Shape(s)
    ensures Shape(r)
  {
    WithTarget(Learn(s, rip, taken), rip, target).(predictions := AddW(s.predictions, 1))
  }

  // ---- one branch, one direction -------------------------------------------

  /** The run in which the branch goes the same way once per target. */
  function Repeat(s: Tage, rip: Word, taken: bool, targets: seq<Word>): (r: Tage)
    requires Shape(s)
    ensures Shape(r)
    decreases |targets|
  {
    if targets == [] then s else Repeat(Update(s, rip, taken, targets[0]), rip, taken, targets[1..])
  }

  /** How many mispredicted updates turn the prediction round. */
  function Distance(s: Tage, rip: Word, taken: bool): (n: nat)
    requires Shape(s)
    ensures n <= 8
  {
    var p := Best(s, rip);
    if p >= 0 && EntryOf(s, rip, p).taken != taken then EntryOf(s, rip, p).useful + 1 else 0
  }

  lemma EntryAfter(s: Tage, rip: Word, t: nat, e: Entry, u: nat)
    requires Shape(s) && t < TABLES && u < TABLES
    ensures EntryOf(WithEntry(s, rip, t, e), rip, u) == if u == t then e else EntryOf(s, rip, u)
  {
  }

  /** Updating a branch leaves its provider in place and trains its entry. */
  lemma UpdateKeepsProvider(s: Tage, rip: Word, taken: bool, target: Word)
    requires Shape(s) && Best(s, rip) >= 0
    ensures var p, d := Best(s, rip), Update(s, rip, taken, target);
            && Best(d, rip) == p && EntryOf(d, rip, p) == Trained(EntryOf(s, rip, p), taken)
            && d.mispredictions
               == (if EntryOf(s, rip, p).taken == taken then s.mispredictions else AddW(s.mispredictions, 1))
  {
    var p, d := Best(s, rip), Update(s, rip, taken, target);
    forall t | 0 <= t < TABLES ensures Matches(d, rip, t) == Matches(s, rip, t) {
      EntryAfter(s, rip, p, Trained(EntryOf(s, rip, p), taken), t);
    }
    EntryAfter(s, rip, p, Trained(EntryOf(s, rip, p), taken), p);
  }

  /** With no matching entry, an allocated one becomes the provider and has the outcome's direction. */
  lemma UpdateAllocates(s: Tage, rip: Word, taken: bool, target: Word)
    requires Shape(s) && Best(s, rip) == -1
    ensures var v, d := FirstFree(s, rip), Update(s, rip, taken, target);
            && d.mispredictions == s.mispredictions && BtbHit(d, rip)
            && (v < TABLES ==> Best(d, rip) == v && EntryOf(d, rip, v).taken == taken)
            && (v == TABLES ==> Best(d, rip) == -1 && FirstFree(d, rip) == TABLES)
  {
    var v, d := FirstFree(s, rip), Update(s, rip, taken, target);
    if v < TABLES {
      AllocationWins(s, d, rip, v, Entry(Tag(rip, v), 0, taken, true));
    } else {
      NothingChanges(s, d, rip);
    }
  }

  lemma AllocationWins(s: Tage, d: Tage, rip: Word, v: nat, e: Entry)
    requires Shape(s) && Shape(d) && Best(s, rip) == -1 && v < TABLES
    requires e.valid && e.tag == Tag(rip, v) && d.tables == WithEntry(s, rip, v, e).tables
    ensures Best(d, rip) == v && EntryOf(d, rip, v) == e
  {
    EntryAfter(s, rip, v, e, v);
    assert Matches(d, rip, v);
    forall t | 0 <= t < TABLES && t != v ensures !Matches(d, rip, t) {
      EntryAfter(s, rip, v, e, t);
      assert !Matches(s, rip, t);
    }
  }

  lemma NothingChanges(s: Tage, d: Tage, rip: Word)
    requires Shape(s) && Shape(d) && d.tables == s.tables
    ensures Best(d, rip) == Best(s, rip) && FirstFree(d, rip) == FirstFree(s, rip)
  {
    forall t | 0 <= t < TABLES
      ensures Matches(d, rip, t) == Matches(s, rip, t) && Allocatable(d, rip, t) == Allocatable(s, rip, t)
    {
    }
  }

  /** A counter `k` counts later. */
  function Later(m: Word, k: nat): Word { (m + k) % W64 }

  /** One misprediction less to come, until there is none. */
  function OneLess(n: nat): nat { if n == 0 then 0 else n - 1 }

  lemma CountOn(m: Word, k: nat, n: nat)
    requires k > 0
    ensures Later(if n == 0 then m else AddW(m, 1), Min(k - 1, OneLess(n))) == Later(m, Min(k, n))
  {
    assert AddW(m, 1) == if m == W64 - 1 then m + 1 - W64 else m + 1;
  }

  /** An update brings the prediction one misprediction closer, until there is none. */
  lemma DistanceShrinks(s: Tage, rip: Word, taken: bool, target: Word)
    requires Shape(s) && Best(s, rip) >= 0
    ensures var d, n := Update(s, rip, taken, target), Distance(s, rip, taken);
            && Best(d, rip) >= 0 && Distance(d, rip, taken) == OneLess(n)
            && d.mispredictions == (if n == 0 then s.mispredictions else AddW(s.mispredictions, 1))
  {
    UpdateKeepsProvider(s, rip, taken, target);
  }

  lemma DistanceZero(s: Tage, rip: Word, taken: bool)
    requires Shape(s) && Best(s, rip) >= 0
    ensures Predict(s, rip) == taken <==> Distance(s, rip, taken) == 0
  {
  }

  /** From a state with a provider: exactly the first `Distance` updates are mispredictions, and from
    * then on the prediction is the direction of the branch. */
  lemma {:induction false} ProvidedConverges(s: Tage, rip: Word, taken: bool, targets: seq<Word>)
    requires Shape(s) && Best(s, rip) >= 0
    ensures var d, n := Repeat(s, rip, taken, targets), Distance(s, rip, taken);
            && (Predict(d, rip) == taken <==> |targets| >= n)
            && d.mispredictions == Later(s.mispredictions, Min(|targets|, n))
    decreases |targets|
  {
    if targets == [] {
      DistanceZero(s, rip, taken);
    } else {
      DistanceShrinks(s, rip, taken, targets[0]);
      ProvidedConverges(Update(s, rip, taken, targets[0]), rip, taken, targets[1..]);
      CountOn(s.mispredictions, |targets|, Distance(s, rip, taken));
    }
  }

  /** The branch is taken, or in some table its entry is unused, has its tag or has confidence 0. */
  predicate Learnable(s: Tage, rip: Word, taken: bool)
    requires Shape(s)
  {
    taken || exists t :: 0 <= t < 4 && Open(EntryOf(s, rip, t), Tag(rip, t))
  }

  predicate Open(e: Entry, tag: Word) { !e.valid || e.tag == tag || e.useful == 0 }

  lemma LearnableIs(s: Tage, rip: Word, taken: bool)
    requires Shape(s)
    ensures Learnable(s, rip, taken) <==> taken || Best(s, rip) >= 0 || FirstFree(s, rip) < TABLES
  {
    if Best(s, rip) >= 0 {
      assert Open(EntryOf(s, rip, Best(s, rip)), Tag(rip, Best(s, rip)));
    }
    if FirstFree(s, rip) < TABLES {
      assert Open(EntryOf(s, rip, FirstFree(s, rip)), Tag(rip, FirstFree(s, rip)));
    }
  }

  /** After the run: the direction is predicted exactly if it was learnable, and exactly `Distance` of
    * the updates, which is at most eight, counted as mispredictions. */
  predicate Settled(s: Tage, d: Tage, rip: Word, taken: bool)
    requires Shape(s) && Shape(d)
  {
    && (Predict(d, rip) == taken <==> Learnable(s, rip, taken))
    && d.mispredictions == Later(s.mispredictions, Distance(s, rip, taken))
  }

  lemma ProvidedSettles(s: Tage, rip: Word, taken: bool, targets: seq<Word>)
    requires Shape(s) && Best(s, rip) >= 0 && |targets| >= 8
    ensures Settled(s, Repeat(s, rip, taken, targets), rip, taken)
  {
    ProvidedConverges(s, rip, taken, targets);
  }

  /** With no provider but an entry to allocate, one update is enough and none is a misprediction. */
  lemma AllocatedSettles(s: Tage, rip: Word, taken: bool, targets: seq<Word>)
    requires Shape(s) && Best(s, rip) == -1 && FirstFree(s, rip) < TABLES && targets != []
    ensures Settled(s, Repeat(s, rip, taken, targets), rip, taken)
  {
    var next := Update(s, rip, taken, targets[0]);
    AllocatedNext(s, rip, taken, targets[0]);
    ProvidedConverges(next, rip, taken, targets[1..]);
    assert Distance(s, rip, taken) == 0;
  }

  lemma AllocatedNext(s: Tage, rip: Word, taken: bool, target: Word)
    requires Shape(s) && Best(s, rip) == -1 && FirstFree(s, rip) < TABLES
    ensures var d := Update(s, rip, taken, target);
            Best(d, rip) >= 0 && Distance(d, rip, taken) == 0 && d.mispredictions == s.mispredictions
  {
    UpdateAllocates(s, rip, taken, target);
    NothingMissed(Update(s, rip, taken, target), rip, taken);
  }

  /** A provider with the direction of the branch has nothing to unlearn. */
  lemma NothingMissed(s: Tage, rip: Word, taken: bool)
    requires Shape(s) && Best(s, rip) >= 0 && EntryOf(s, rip, Best(s, rip)).taken == taken
    ensures Distance(s, rip, taken) == 0
  {
  }

  /** With no provider and no entry to allocate, the branch is predicted taken for ever. */
  lemma {:induction false} UnprovidedStuck(s: Tage, rip: Word, taken: bool, targets: seq<Word>)
    requires Shape(s) && Best(s, rip) == -1 && FirstFree(s, rip) == TABLES
    requires targets != [] || BtbHit(s, rip)
    ensures var d := Repeat(s, rip, taken, targets); Predict(d, rip) && d.mispredictions == s.mispredictions
    decreases |targets|
  {
    if targets != [] {
      UpdateAllocates(s, rip, taken, targets[0]);
      UnprovidedStuck(Update(s, rip, taken, targets[0]), rip, taken, targets[1..]);
    }
  }

  lemma StuckSettles(s: Tage, rip: Word, taken: bool, targets: seq<Word>)
    requires Shape(s) && Best(s, rip) == -1 && FirstFree(s, rip) == TABLES && targets != []
    ensures Settled(s, Repeat(s, rip, taken, targets), rip, taken)
  {
    UnprovidedStuck(s, rip, taken, targets);
    StuckIsSettled(s, Repeat(s, rip, taken, targets), rip, taken);
  }

  lemma StuckIsSettled(s: Tage, d: Tage, rip: Word, taken: bool)
    requires Shape(s) && Best(s, rip) == -1 && FirstFree(s, rip) == TABLES
    requires Shape(d) && Predict(d, rip) && d.mispredictions == s.mispredictions
    ensures Settled(s, d, rip, taken)
  {
  }

  /** Convergence, from every state: after eight or more consecutive updates in one direction the
    * predictor returns that direction if and only if it is learnable. */
  lemma Converges(s: Tage, rip: Word, taken: bool, targets: seq<Word>)
    requires Shape(s) && |targets| >= 8
    ensures Settled(s, Repeat(s, rip, taken, targets), rip, taken)
  {
    if Best(s, rip) >= 0 {
      ProvidedSettles(s, rip, taken, targets);
    } else if FirstFree(s, rip) < TABLES {
      AllocatedSettles(s, rip, taken, targets);
    } else {
      StuckSettles(s, rip, taken, targets);
    }
  }

  /** Hysteresis: one outcome against the provider turns the prediction round only at confidence zero. */
  lemma ContraryOutcome(s: Tage, rip: Word, target: Word)
    requires Shape(s) && Best(s, rip) >= 0
    ensures var d := Update(s, rip, !Predict(s, rip), target);
            Predict(d, rip) != Predict(s, rip) <==> EntryOf(s, rip, Best(s, rip)).useful == 0
  {
    UpdateKeepsProvider(s, rip, !Predict(s, rip), target);
  }

  /** The target predicted next is the one last recorded. */
  lemma TargetRemembered(s: Tage, rip: Word, taken: bool, target: Word)
    requires Shape(s)
    ensures PredictTarget(Update(s, rip, taken, target), rip) == target
  {
  }

  // ---- among other branches ------------------------------------------------

  datatype Outcome = Outcome(rip: Word, taken: bool, target: Word)

  function Run(s: Tage, ops: seq<Outcome>): (r: Tage)
    requires Shape(s)
    ensures Shape(r)
    decreases |ops|
  {
    if ops == [] then s else Run(Update(s, ops[0].rip, ops[0].taken, ops[0].target), ops[1..])
  }

  /** The two branches share no table entry and no target-buffer entry. */
  predicate Apart(a: Word, b: Word) {
    BtbIndex(a) != BtbIndex(b) && forall t :: 0 <= t < TABLES ==> Slot(a, t) != Slot(b, t)
  }

  /** In the run this branch always goes the same way, and every other branch is apart from it. */
  predicate Steady(ops: seq<Outcome>, rip: Word, taken: bool) {
    forall i :: 0 <= i < |ops| ==> if ops[i].rip == rip then ops[i].taken == taken else Apart(rip, ops[i].rip)
  }

  /** How often the branch itself comes in the run. */
  function Own(ops: seq<Outcome>, rip: Word): nat {
    if ops == [] then 0 else (if ops[0].rip == rip then 1 else 0) + Own(ops[1..], rip)
  }

  /** The matching entry, if any, has the other direction. */
  predicate Misses(s: Tage, rip: Word, taken: bool)
    requires Shape(s)
  {
    Best(s, rip) >= 0 && EntryOf(s, rip, Best(s, rip)).taken != taken
  }

  /** How many of the branch's own updates in the run count as mispredictions. */
  function OwnMisses(s: Tage, rip: Word, ops: seq<Outcome>): nat
    requires Shape(s)
    decreases |ops|
  {
    if ops == [] then 0
    else (if ops[0].rip == rip && Misses(s, rip, ops[0].taken) then 1 else 0)
         + OwnMisses(Update(s, ops[0].rip, ops[0].taken, ops[0].target), rip, ops[1..])
  }

  /** Everything the predictor holds about the branch is the same. */
  ghost predicate SameFor(s: Tage, d: Tage, rip: Word)
    requires Shape(s) && Shape(d)
  {
    && d.btb[BtbIndex(rip)] == s.btb[BtbIndex(rip)]
    && forall t :: 0 <= t < TABLES ==> EntryOf(d, rip, t) == EntryOf(s, rip, t)
  }

  lemma RowsApart(i: nat, j: nat, t: nat, u: nat)
    requires t * ENTRIES <= i < (t + 1) * ENTRIES && u * ENTRIES <= j < (u + 1) * ENTRIES && t != u
    ensures i != j
  {
  }

  lemma SlotsApart(a: Word, b: Word, t: nat, u: nat)
    requires Apart(a, b) && t < TABLES && u < TABLES
    ensures Slot(a, t) != Slot(b, u)
  {
    if t != u {
      RowsApart(Slot(a, t), Slot(b, u), t, u);
    }
  }

  /** Learning changes at most one entry of the branch. */
  lemma LearnTouches(s: Tage, rip: Word, taken: bool) returns (t: nat)
    requires Shape(s)
    ensures t < TABLES && |Learn(s, rip, taken).tables| == |s.tables| && Learn(s, rip, taken).btb == s.btb
    ensures forall i :: 0 <= i < |s.tables| && i != Slot(rip, t) ==> Learn(s, rip, taken).tables[i] == s.tables[i]
  {
    t := if Best(s, rip) >= 0 then Best(s, rip) else if FirstFree(s, rip) < TABLES then FirstFree(s, rip) else 0;
  }

  lemma ApartKeeps(s: Tage, rip: Word, op: Outcome)
    requires Shape(s) && Apart(rip, op.rip)
    ensures SameFor(s, Update(s, op.rip, op.taken, op.target), rip)
  {
    var v := LearnTouches(s, op.rip, op.taken);
    forall t | 0 <= t < TABLES ensures EntryOf(Update(s, op.rip, op.taken, op.target), rip, t) == EntryOf(s, rip, t) {
      SlotsApart(rip, op.rip, t, v);
    }
  }

  lemma SameBehaviour(s: Tage, d: Tage, rip: Word, taken: bool)
    requires Shape(s) && Shape(d) && SameFor(s, d, rip)
    ensures Best(d, rip) == Best(s, rip) && FirstFree(d, rip) == FirstFree(s, rip) && BtbHit(d, rip) == BtbHit(s, rip)
    ensures Distance(d, rip, taken) == Distance(s, rip, taken)
  {
    forall t | 0 <= t < TABLES
      ensures Matches(d, rip, t) == Matches(s, rip, t) && Allocatable(d, rip, t) == Allocatable(s, rip, t)
    {
      assert EntryOf(d, rip, t) == EntryOf(s, rip, t);
    }
  }

  lemma OtherBranch(s: Tage, rip: Word, taken: bool, op: Outcome)
    requires Shape(s) && Apart(rip, op.rip)
    ensures var d := Update(s, op.rip, op.taken, op.target);
            && Best(d, rip) == Best(s, rip) && FirstFree(d, rip) == FirstFree(s, rip)
            && BtbHit(d, rip) == BtbHit(s, rip)
            && Distance(d, rip, taken) == Distance(s, rip, taken)
  {
    ApartKeeps(s, rip, op);
    SameBehaviour(s, Update(s, op.rip, op.taken, op.target), rip, taken);
  }

  lemma MissesIffFar(s: Tage, rip: Word, taken: bool)
    requires Shape(s)
    ensures Misses(s, rip, taken) <==> Distance(s, rip, taken) > 0
  {
  }

  /** From a state with a provider: the first `Distance` updates of the branch miss and no others do, and the
    * prediction is the branch's direction from then on. */
  lemma {:induction false} ProvidedAmong(s: Tage, rip: Word, taken: bool, ops: seq<Outcome>)
    requires Shape(s) && Best(s, rip) >= 0 && Steady(ops, rip, taken)
    ensures var n := Distance(s, rip, taken);
            && (Predict(Run(s, ops), rip) == taken <==> Own(ops, rip) >= n)
            && OwnMisses(s, rip, ops) == Min(Own(ops, rip), n)
    decreases |ops|
  {
    if ops == [] {
      DistanceZero(s, rip, taken);
    } else {
      var op := ops[0];
      if op.rip == rip {
        DistanceShrinks(s, rip, taken, op.target);
        MissesIffFar(s, rip, taken);
      } else {
        OtherBranch(s, rip, taken, op);
      }
      ProvidedAmong(Update(s, op.rip, op.taken, op.target), rip, taken, ops[1..]);
    }
  }

  lemma FirstAllocates(s: Tage, rip: Word, taken: bool, ops: seq<Outcome>)
    requires Shape(s) && Best(s, rip) == -1 && FirstFree(s, rip) < TABLES && Steady(ops, rip, taken)
    requires ops != [] && ops[0].rip == rip
    ensures Predict(Run(s, ops), rip) == taken && OwnMisses(s, rip, ops) == 0
  {
    AllocatedNext(s, rip, taken, ops[0].target);
    ProvidedAmong(Update(s, rip, taken, ops[0].target), rip, taken, ops[1..]);
  }

  lemma {:induction false} AllocatedAmong(s: Tage, rip: Word, taken: bool, ops: seq<Outcome>)
    requires Shape(s) && Best(s, rip) == -1 && FirstFree(s, rip) < TABLES && Steady(ops, rip, taken)
    requires Own(ops, rip) > 0
    ensures Predict(Run(s, ops), rip) == taken && OwnMisses(s, rip, ops) == 0
    decreases |ops|
  {
    var op := ops[0];
    if op.rip == rip {
      FirstAllocates(s, rip, taken, ops);
    } else {
      OtherBranch(s, rip, taken, op);
      AllocatedAmong(Update(s, op.rip, op.taken, op.target), rip, taken, ops[1..]);
    }
  }

  lemma {:induction false} StuckAmong(s: Tage, rip: Word, taken: bool, ops: seq<Outcome>)
    requires Shape(s) && Best(s, rip) == -1 && FirstFree(s, rip) == TABLES && Steady(ops, rip, taken)
    requires Own(ops, rip) > 0 || BtbHit(s, rip)
    ensures Predict(Run(s, ops), rip) && OwnMisses(s, rip, ops) == 0
    decreases |ops|
  {
    if ops != [] {
      var op := ops[0];
      if op.rip == rip {
        UpdateAllocates(s, rip, taken, op.target);
      } else {
        OtherBranch(s, rip, taken, op);
      }
      StuckAmong(Update(s, op.rip, op.taken, op.target), rip, taken, ops[1..]);
    }
  }

  /** Convergence among other branches: after any run in which the branch goes the same way at least eight
    * times, interleaved with branches apart from it, the predictor returns that direction if and only if
    * it is learnable, and exactly `Distance` of the branch's updates, at most eight, were mispredictions. */
  lemma ConvergesAmong(s: Tage, rip: Word, taken: bool, ops: seq<Outcome>)
    requires Shape(s) && Steady(ops, rip, taken) && Own(ops, rip) >= 8
    ensures Predict(Run(s, ops), rip) == taken <==> Learnable(s, rip, taken)
    ensures OwnMisses(s, rip, ops) == Distance(s, rip, taken)
  {
    LearnableIs(s, rip, taken);
    AmongByCase(s, rip, taken, ops);
  }

  lemma AmongByCase(s: Tage, rip: Word, taken: bool, ops: seq<Outcome>)
    requires Shape(s) && Steady(ops, rip, taken) && Own(ops, rip) >= 8
    ensures Predict(Run(s, ops), rip) == taken <==> taken || Best(s, rip) >= 0 || FirstFree(s, rip) < TABLES
    ensures OwnMisses(s, rip, ops) == Distance(s, rip, taken)
  {
    if Best(s, rip) >= 0 {
      ProvidedAmong(s, rip, taken, ops);
    } else if FirstFree(s, rip) < TABLES {
      AllocatedAmong(s, rip, taken, ops);
    } else {
      StuckAmong(s, rip, taken, ops);
    }
  }

  // ---- a direction that cannot be learned ----------------------------------

  /** Four branches that have entry 0 in common with branch 0: number `k` in tables 0 to `k`. */
  function Blocker(k: nat): Word
    requires k < TABLES
  {
    match k case 0 => 0x4000 case 1 => 0x4_0000 case 2 => 0x40_0000 case _ => 0x400_0000
  }

  lemma {:induction false} ShiftTwice(x: Word, n: nat, m: nat)
    ensures ShrW(ShrW(x, n), m) == ShrW(x, n + m)
    decreases n
  {
    if n > 0 {
      ShiftTwice(x / 2, n - 1, m);
    }
  }

  lemma FourFurther(x: Word, n: nat)
    ensures ShrW(x, n + 4) == ShrW(x, n) / 16
  {
    ShiftTwice(x, n, 4);
    var y := ShrW(x, n);
    assert ShrW(y, 4) == y / 2 / 2 / 2 / 2;
  }

  lemma Shifts(x: Word, q: Word)
    requires q == x / 4
    ensures ShrW(x, 2) == q && ShrW(x, 6) == q / 0x10 && ShrW(x, 10) == q / 0x100 && ShrW(x, 14) == q / 0x1000
    ensures ShrW(x, 18) == q / 0x1_0000
  {
    FourFurther(x, 2);
    FourFurther(x, 6);
    FourFurther(x, 10);
    FourFurther(x, 14);
  }

  lemma {:induction false} BitwiseXorZero(x: nat)
    ensures Bitwise(Xor, x, 0) == x
  {
    if x > 0 {
      BitwiseXorZero(x / 2);
    }
  }

  lemma XorZero(x: Word)
    ensures XorW(x, 0) == x
  {
    BitwiseXorZero(x);
  }

  lemma BlockerShifts(x: Word)
    ensures x == 0x4000 ==> ShrW(x, 2) == 0x1000 && ShrW(x, 6) == 0x100 && ShrW(x, 10) == 0x10 && ShrW(x, 14) == 1
    ensures x == 0x4_0000 ==> ShrW(x, 6) == 0x1000 && ShrW(x, 10) == 0x100 && ShrW(x, 14) == 0x10
  {
    Shifts(x, x / 4);
  }

  lemma BlockerTops(x: Word)
    ensures x == 0x4_0000 ==> ShrW(x, 2) == 0x1_0000
    ensures x == 0x40_0000 ==> ShrW(x, 2) == 0x10_0000 && ShrW(x, 6) == 0x1_0000
    ensures x == 0x400_0000 ==> ShrW(x, 2) == 0x100_0000 && ShrW(x, 6) == 0x10_0000 && ShrW(x, 10) == 0x1_0000
    ensures x == 0x40_0000 ==> ShrW(x, 10) == 0x1000 && ShrW(x, 14) == 0x100
    ensures x == 0x400_0000 ==> ShrW(x, 14) == 0x1000 && ShrW(x, 18) == 0x100
  {
    Shifts(x, x / 4);
  }

  lemma TagOf(rip: Word, t: nat)
    requires t < TABLES && rip % 0x1000 == 0
    ensures Tag(rip, t) == ShrW(rip, 4 * t + 6)
  {
    XorZero(ShrW(rip, 4 * t + 6));
  }

  lemma BlockerIndex(k: nat, t: nat)
    requires k < TABLES && t < TABLES
    ensures t <= k <==> ShrW(Blocker(k), 4 * t + 2) % 0x1000 == 0
  {
    BlockerShifts(Blocker(k));
    BlockerTops(Blocker(k));
  }

  lemma BlockerTag(k: nat, t: nat)
    requires t <= k < TABLES
    ensures ShrW(Blocker(k), 4 * t + 6) == 0x100 <==> t == k
  {
    BlockerShifts(Blocker(k));
    BlockerTops(Blocker(k));
  }

  lemma BlockerPlaces(k: nat, t: nat)
    requires k < TABLES && t < TABLES
    ensures t <= k <==> Index(Blocker(k), t) == 0
    ensures t == k ==> Tag(Blocker(k), t) == 0x100
    ensures t < k ==> Tag(Blocker(k), t) != 0x100
  {
    BlockerIndex(k, t);
    if t <= k {
      BlockerTag(k, t);
    }
    TagOf(Blocker(k), t);
  }

  const BLOCKING := Entry(0x100, 1, true, true)

  /** Entry 0 of one of the first `k` tables. */
  predicate IsHead(i: nat, k: nat) { exists t :: 0 <= t < k && i == Head(t) }

  function Head(t: nat): nat { t * ENTRIES }

  /** Entry 0 of the first `k` tables is in use with confidence 1, and all others are unused. */
  predicate Blocked(s: Tage, k: nat)
    requires Shape(s)
  {
    forall i :: 0 <= i < |s.tables| ==> if IsHead(i, k) then s.tables[i] == BLOCKING else !s.tables[i].valid
  }

  predicate Unused(s: Tage)
    requires Shape(s)
  {
    forall i :: 0 <= i < |s.tables| ==> !s.tables[i].valid
  }

  predicate NoTargets(s: Tage)
    requires Shape(s)
  {
    forall i :: 0 <= i < |s.btb| ==> !s.btb[i].valid
  }

  function TakenTwice(s: Tage, rip: Word): (r: Tage)
    requires Shape(s)
    ensures Shape(r)
  {
    Update(Update(s, rip, true, 0), rip, true, 0)
  }

  lemma RowHead(t: nat, i: nat, u: nat)
    requires i < ENTRIES
    ensures t * ENTRIES + i == Head(u) <==> i == 0 && t == u
  {
    if t < u {
      assert (t + 1) * ENTRIES <= u * ENTRIES;
    } else if u < t {
      assert (u + 1) * ENTRIES <= t * ENTRIES;
    }
  }

  lemma SlotIsHead(rip: Word, t: nat, k: nat)
    requires t < TABLES
    ensures IsHead(Slot(rip, t), k) <==> Index(rip, t) == 0 && t < k
  {
    if IsHead(Slot(rip, t), k) {
      var u :| 0 <= u < k && Slot(rip, t) == Head(u);
      RowHead(t, Index(rip, t), u);
    }
    if Index(rip, t) == 0 && t < k {
      assert Slot(rip, t) == Head(t);
    }
  }

  /** Before its turn a blocker matches nothing and is given its entry in table `k`. */
  lemma BlockerFindsRoom(s: Tage, k: nat)
    requires Shape(s) && k < TABLES && Blocked(s, k)
    ensures Best(s, Blocker(k)) == -1 && FirstFree(s, Blocker(k)) == k
  {
    forall t | 0 <= t < TABLES
      ensures !Matches(s, Blocker(k), t) && (Allocatable(s, Blocker(k), t) <==> t >= k)
    {
      BlockerPlaces(k, t);
      SlotIsHead(Blocker(k), t, k);
    }
  }

  lemma BlockerTwice(s: Tage, k: nat)
    requires Shape(s) && k < TABLES && Blocked(s, k)
    ensures Head(k) < |s.tables| && TakenTwice(s, Blocker(k)).tables == s.tables[Head(k) := BLOCKING]
  {
    BlockerFindsRoom(s, k);
    BlockerPlaces(k, k);
    UpdateAllocates(s, Blocker(k), true, 0);
    var d := Update(s, Blocker(k), true, 0);
    assert d.tables == s.tables[Slot(Blocker(k), k) := Entry(0x100, 0, true, true)];
  }

  lemma HeadOfNext(i: nat, k: nat)
    ensures IsHead(i, k + 1) <==> IsHead(i, k) || i == Head(k)
  {
    if IsHead(i, k + 1) && i != Head(k) {
      var t :| 0 <= t < k + 1 && i == Head(t);
      assert t < k && i == Head(t);
    }
    if IsHead(i, k) {
      var t :| 0 <= t < k && i == Head(t);
      assert t < k + 1 && i == Head(t);
    }
  }

  lemma BlockedNext(s: Tage, k: nat)
    requires Shape(s) && k < TABLES && Blocked(s, k)
    ensures Blocked(TakenTwice(s, Blocker(k)), k + 1)
  {
    var d := TakenTwice(s, Blocker(k));
    BlockerTwice(s, k);
    BlockerPlaces(k, k);
    forall i | 0 <= i < |d.tables|
      ensures if IsHead(i, k + 1) then d.tables[i] == BLOCKING else !d.tables[i].valid
    {
      HeadOfNext(i, k);
    }
  }

  lemma UnusedIsBlocked(s: Tage)
    requires Shape(s) && Unused(s)
    ensures Blocked(s, 0)
  {
    forall i: nat ensures !IsHead(i, 0) {
    }
  }

  /** An unused predictor after the first `k` of them, each taken twice. */
  function AfterBlockers(s: Tage, k: nat): (r: Tage)
    requires Shape(s) && Unused(s) && k <= TABLES
    ensures Shape(r) && Blocked(r, k)
  {
    if k == 0 then
      UnusedIsBlocked(s);
      s
    else
      var d := AfterBlockers(s, k - 1);
      BlockedNext(d, k - 1);
      TakenTwice(d, Blocker(k - 1))
  }

  /** From an unused predictor eight updates lead to a state in which a branch that is never taken stays
    * predicted taken, however often it is seen. */
  lemma UnlearnableReached(s: Tage, k: nat, targets: seq<Word>)
    requires Shape(s) && Unused(s) && k == TABLES && targets != []
    ensures var d := AfterBlockers(s, k);
            !Learnable(d, 0, false) && Predict(Repeat(d, 0, false, targets), 0)
  {
    var d := AfterBlockers(s, k);
    forall t | 0 <= t < TABLES ensures !Matches(d, 0, t) && !Allocatable(d, 0, t) {
      ZeroPlaces(t);
      SlotIsHead(0, t, k);
    }
    NothingOpen(d);
    UnprovidedStuck(d, 0, false, targets);
  }

  lemma NothingOpen(d: Tage)
    requires Shape(d) && Best(d, 0) == -1 && FirstFree(d, 0) == TABLES
    ensures !Learnable(d, 0, false)
  {
    LearnableIs(d, 0, false);
  }

  lemma {:induction false} ZeroShifts(k: nat)
    ensures ShrW(0, k) == 0
    decreases k
  {
    if k > 0 {
      ZeroShifts(k - 1);
    }
  }

  lemma ZeroPlaces(t: nat)
    requires t < TABLES
    ensures Index(0, t) == 0 && Tag(0, t) == 0
  {
    ZeroShifts(4 * t + 2);
    ZeroShifts(4 * t + 6);
    XorZero(0);
  }

  // ---- counters over arbitrary runs ----------------------------------------

  /** Updates that found no matching entry. */
  function Unmatched(s: Tage, ops: seq<Outcome>): nat
    requires Shape(s)
    decreases |ops|
  {
    if ops == [] then 0
    else (if Best(s, ops[0].rip) == -1 then 1 else 0)
         + Unmatched(Update(s, ops[0].rip, ops[0].taken, ops[0].target), ops[1..])
  }

  /** Predictions are the correct ones, the mispredictions and the unmatched updates. */
  lemma {:induction false} CountersBalance(s: Tage, ops: seq<Outcome>, n: nat)
    requires Shape(s) && s.predictions == (s.correct + s.mispredictions + n) % W64
    ensures var r := Run(s, ops);
            r.predictions == (r.correct + r.mispredictions + n + Unmatched(s, ops)) % W64
    decreases |ops|
  {
    if ops != [] {
      var d := Update(s, ops[0].rip, ops[0].taken, ops[0].target);
      UpdateCounts(s, ops[0].rip, ops[0].taken, ops[0].target, n);
      CountersBalance(d, ops[1..], if Best(s, ops[0].rip) == -1 then n + 1 else n);
    }
  }

  /** Each update counts once, as correct, mispredicted or unmatched. */
  lemma UpdateCounts(s: Tage, rip: Word, taken: bool, target: Word, n: nat)
    requires Shape(s) && s.predictions == (s.correct + s.mispredictions + n) % W64
    ensures var d := Update(s, rip, taken, target);
            d.predictions == (d.correct + d.mispredictions + (if Best(s, rip) == -1 then n + 1 else n)) % W64
  {
    OneMore(s.correct + s.mispredictions + n);
    SumWraps(s.correct, s.mispredictions, n);
  }

  lemma OneMore(x: nat)
    ensures (x % W64 + 1) % W64 == (x + 1) % W64
  {
  }

  lemma SumWraps(a: Word, b: Word, n: nat)
    ensures (AddW(a, 1) + b + n) % W64 == (a + b + n + 1) % W64
    ensures (a + AddW(b, 1) + n) % W64 == (a + b + n + 1) % W64
  {
    assert AddW(a, 1) == if a == W64 - 1 then a + 1 - W64 else a + 1;
    assert AddW(b, 1) == if b == W64 - 1 then b + 1 - W64 else b + 1;
  }
}

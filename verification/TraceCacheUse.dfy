/** The trace cache over runs, in numbers: which keys it holds, how often an entry has been used, and which
  * bucket a key belongs to. */
module TraceCacheUse {
  import opened Words
  import opened Bits
  import opened TraceCache
  import opened TraceEviction
  import opened TraceCacheMap
  import opened TraceCacheRuns
  import BitOps

  // ---- which keys are held -------------------------------------------------

  /** Whether a key is held after an operation that evicts nothing. */
  predicate HeldAfter(was: bool, op: Op, key: Key) {
    if op.DoInsert? && op.key == key then true
    else if op.DoInvalidate? && op.rip == key.rip then false
    else was
  }

  /** The key has been inserted, or was there before, and its address has not been invalidated since. */
  predicate Held(was: bool, ops: seq<Op>, key: Key)
    decreases |ops|
  {
    if ops == [] then was else Held(HeldAfter(was, ops[0], key), ops[1..], key)
  }

  lemma InsertHolds(c: Cache, inserted: Key, key: Key)
    requires Inv(c) && Room(c, inserted) && c.entryCount < 131072
    ensures var d := Insert(c, inserted).1;
            && Inv(d) && d.entryCount <= c.entryCount + 1
            && (key in AsMap(d) <==> key == inserted || key in AsMap(c))
  {
    InsertSpec(c, inserted);
    WithRoomSpec(c);
    LocateIsMapLookup(c, inserted);
  }

  lemma StepHolds(c: Cache, op: Op, key: Key)
    requires Inv(c) && HasRoom(c, op) && (op.DoInsert? ==> c.entryCount < 131072)
    ensures var d := Apply(c, op);
            && Inv(d) && d.entryCount <= c.entryCount + (if op.DoInsert? then 1 else 0)
            && (key in AsMap(d) <==> HeldAfter(key in AsMap(c), op, key))
  {
    match op
    case DoLookup(k) => LookupSpec(c, k);
    case DoInsert(k) => InsertHolds(c, k, key);
    case DoPin(k, up) => PinSpec(c, k, up);
    case DoInvalidate(rip) => InvalidateSpec(c, rip);
    case DoConfigure(depth) =>
      WeakenedStructure(c, Configure(c, depth));
      WeakenedMap(c, Configure(c, depth), key);
      AsMapIs(c, key);
  }

  lemma {:induction false} RunHolds(c: Cache, ops: seq<Op>, key: Key)
    requires Inv(c) && StaysClear(c, ops) && c.entryCount + Insertions(ops) <= 131072
    ensures key in AsMap(Run(c, ops)) <==> Held(key in AsMap(c), ops, key)
    decreases |ops|
  {
    if ops != [] {
      StepHolds(c, ops[0], key);
      RunHolds(Apply(c, ops[0]), ops[1..], key);
    }
  }

  /** Over every run from the empty cache with at most 131072 insertions that stays clear of the bucket
    * table, nothing is ever evicted: a lookup finds a key exactly if it has been inserted and its address
    * has not been invalidated since. */
  lemma InsertedStays(capacity: nat, depth: Word32, ops: seq<Op>, key: Key)
    requires capacity < W32 && StaysClear(Start(capacity, depth), ops) && Insertions(ops) <= 131072
    ensures Lookup(Run(Start(capacity, depth), ops), key).0 != NIL <==> Held(false, ops, key)
  {
    EmptyInv(capacity, depth);
    RunHolds(Start(capacity, depth), ops, key);
    LookupSpec(Run(Start(capacity, depth), ops), key);
  }

  /** At 131072 entries or more, with a nonzero scan depth and some node valid and unpinned, inserting a new
    * key removes exactly one other key. */
  lemma InsertEvictsOne(c: Cache, key: Key) returns (gone: Key)
    requires Inv(c) && Room(c, key) && key !in AsMap(c)
    requires c.entryCount >= 131072 && c.scanDepth > 0
    requires exists i :: 0 <= i < |c.nodes| && c.nodes[i].valid && c.nodes[i].pinCount == 0
    ensures gone in AsMap(c) && gone != key && Inv(Insert(c, key).1)
    ensures forall k :: k in AsMap(Insert(c, key).1) <==> k == key || (k in AsMap(c) && k != gone)
  {
    InsertSpec(c, key);
    gone := VictimKey(c);
  }

  lemma VictimKey(c: Cache) returns (gone: Key)
    requires Inv(c) && c.scanDepth > 0
    requires exists i :: 0 <= i < |c.nodes| && c.nodes[i].valid && c.nodes[i].pinCount == 0
    ensures 0 <= Victim(c) < |c.nodes| && gone == c.nodes[Victim(c)].key && gone in AsMap(c)
  {
    var i :| 0 <= i < |c.nodes| && c.nodes[i].valid && c.nodes[i].pinCount == 0;
    assert i in EligibleSet(c);
    VictimSpec(c);
    gone := c.nodes[Victim(c)].key;
    AsMapIs(c, gone);
    assert Matches(c.nodes[Victim(c)], gone);
  }

  // ---- what one operation writes -------------------------------------------

  /** The entry of a new key: nothing translated yet, one use, no pin, no hint. */
  predicate IsNew(n: Node, key: Key, stamp: Word32, next: int) {
    && n.key == key && n.translatedAddr == 0 && n.microOpCount == 0 && n.instructionCount == 0
    && n.executionCount == 1 && n.pinCount == 0 && n.hint == 0 && n.lru == stamp && n.valid && n.next == next
  }

  /** A new key gets the next slot and the front of its chain, and nothing else changes. */
  predicate Fills(c: Cache, d: Cache, key: Key)
    requires |c.buckets| == BUCKETS
  {
    var i := |c.nodes|;
    && |d.nodes| == d.nextAlloc == i + 1 && d.nodes[..i] == c.nodes
    && IsNew(d.nodes[i], key, c.clock % 0x1_0000_0000, c.buckets[Hash(key)])
    && d.buckets == c.buckets[Hash(key) := i] && d.entryCount == (c.entryCount + 1) % 0x1_0000_0000
    && d.clock == (c.clock + 1) % 0x1_0000_0000_0000_0000
    && d.capacity == c.capacity && d.scanDepth == c.scanDepth
  }

  lemma PushedFills(c: Cache, key: Key)
    requires |c.buckets| == BUCKETS && |c.nodes| == c.nextAlloc < c.capacity
    ensures Fills(c, Pushed(c, key), key)
  {
  }

  /** At the limit, the node the scan chooses is marked invalid and counted off. */
  lemma RoomMade(c: Cache)
    requires Inv(c)
    ensures c.entryCount < 131072 || Victim(c) == -1 ==> WithRoom(c) == c
    ensures c.entryCount >= 131072 && Victim(c) != -1 ==>
              && 0 <= Victim(c) < |c.nodes|
              && WithRoom(c) == c.(nodes := c.nodes[Victim(c) := c.nodes[Victim(c)].(valid := false)],
                                   entryCount := c.entryCount - 1)
  {
    VictimSpec(c);
  }

  /** Inserting a key that is not held makes room and fills the next slot. */
  lemma InsertFills(c: Cache, key: Key)
    requires Inv(c) && Room(c, key) && key !in AsMap(c)
    ensures |WithRoom(c).buckets| == BUCKETS
    ensures Insert(c, key).0 == |c.nodes| && Fills(WithRoom(c), Insert(c, key).1, key)
  {
    LocateIsMapLookup(c, key);
    RoomMade(c);
    PushedFills(WithRoom(c), key);
  }

  lemma LocateHeld(c: Cache, key: Key, i: nat)
    requires Inv(c) && i < |c.nodes| && Matches(c.nodes[i], key)
    ensures Locate(c, key) == i
  {
    LocateIsMapLookup(c, key);
    AsMapIs(c, key);
  }

  /** Inserting a key that is held only stamps its node. */
  lemma InsertStampsOnly(c: Cache, key: Key, i: nat)
    requires Inv(c) && i < |c.nodes| && c.nodes[i].key == key && c.nodes[i].valid
    ensures Room(c, key)
    ensures Insert(c, key) == (i, c.(nodes := c.nodes[i := c.nodes[i].(lru := c.clock % 0x1_0000_0000)],
                                     clock := (c.clock + 1) % 0x1_0000_0000_0000_0000))
  {
    LocateHeld(c, key, i);
  }

  /** One more use, stamped, with the hint from a count of 101 on. */
  predicate Counted(n: Node, m: Node, stamp: Word32) {
    var count := (n.executionCount + 1) % 0x1_0000_0000;
    && m.executionCount == count && m.lru == stamp && m.pinCount == n.pinCount
    && m.hint == (if count >= 101 && n.hint % 2 == 0 then n.hint + 1 else n.hint)
    && m.key == n.key && m.valid == n.valid && m.next == n.next && m.translatedAddr == n.translatedAddr
    && m.microOpCount == n.microOpCount && m.instructionCount == n.instructionCount
  }

  lemma HitCounts(n: Node, clock: Word)
    ensures Counted(n, Hit(n, clock), clock % 0x1_0000_0000)
  {
  }

  /** Looking up a key that is held counts the use of its node. */
  lemma LookupCounts(c: Cache, key: Key, i: nat)
    requires Inv(c) && i < |c.nodes| && c.nodes[i].key == key && c.nodes[i].valid
    ensures var (found, d) := Lookup(c, key);
            && found == i && |d.nodes| == |c.nodes| && Counted(c.nodes[i], d.nodes[i], c.clock % 0x1_0000_0000)
            && d == c.(nodes := c.nodes[i := d.nodes[i]], clock := (c.clock + 1) % 0x1_0000_0000_0000_0000)
  {
    LocateHeld(c, key, i);
    HitCounts(c.nodes[i], c.clock);
  }

  // ---- how often an entry has been used ------------------------------------

  /** The node a lookup, or the lookup that pinning makes, finds. */
  function HitBy(c: Cache, op: Op): Option<nat>
    requires Inv(c) && HasRoom(c, op)
  {
    if op.DoInsert? then None else UsedBy(c, op)
  }

  /** The nodes found by the lookups and pins of a run, in order. */
  ghost function HitsOf(c: Cache, ops: seq<Op>): seq<nat>
    requires Inv(c) && StaysClear(c, ops)
    decreases |ops|
  {
    if ops == [] then [] else Noted([], HitBy(c, ops[0])) + HitsOf(Apply(c, ops[0]), ops[1..])
  }

  function Times(log: seq<nat>, i: nat): nat
    decreases |log|
  {
    if log == [] then 0 else Times(log[..|log| - 1], i) + (if log[|log| - 1] == i then 1 else 0)
  }

  /** What a node found so often shows: one more than that modulo 2^32, and the hint once that has passed 100. */
  predicate Shows(n: Node, hits: nat) {
    n.executionCount == (1 + hits) % 0x1_0000_0000 && n.hint == if hits >= 100 then 1 else 0
  }

  ghost predicate Tallied(c: Cache, log: seq<nat>) {
    && (forall i :: 0 <= i < |c.nodes| ==> Shows(c.nodes[i], Times(log, i)))
    && (forall j :: 0 <= j < |log| ==> log[j] < |c.nodes|)
  }

  lemma HitShows(n: Node, hits: nat, clock: Word)
    requires Shows(n, hits)
    ensures Shows(Hit(n, clock), hits + 1)
  {
    NextCount(hits);
  }

  lemma NextCount(hits: nat)
    ensures ((1 + hits) % 0x1_0000_0000 + 1) % 0x1_0000_0000 == (2 + hits) % 0x1_0000_0000
    ensures hits < 100 ==> (2 + hits) % 0x1_0000_0000 == 2 + hits
    ensures hits == 99 <==> hits < 100 && (2 + hits) % 0x1_0000_0000 > 100
  {
  }

  lemma TimesAfter(log: seq<nat>, last: nat, i: nat)
    ensures Times(log + [last], i) == Times(log, i) + (if last == i then 1 else 0)
  {
    assert (log + [last])[..|log|] == log;
  }

  lemma {:induction false} TimesAbsent(log: seq<nat>, i: nat)
    requires i !in log
    ensures Times(log, i) == 0
    decreases |log|
  {
    if log != [] {
      assert log[|log| - 1] in log;
      TimesAbsent(log[..|log| - 1], i);
    }
  }

  /** Counts and hints of all old nodes are the same. */
  predicate SameCounts(c: Cache, d: Cache) {
    && |c.nodes| <= |d.nodes|
    && forall i :: 0 <= i < |c.nodes| ==>
         d.nodes[i].executionCount == c.nodes[i].executionCount && d.nodes[i].hint == c.nodes[i].hint
  }

  lemma TalliedSame(c: Cache, d: Cache, log: seq<nat>)
    requires Tallied(c, log) && SameCounts(c, d)
    requires forall i :: |c.nodes| <= i < |d.nodes| ==> d.nodes[i].executionCount == 1 && d.nodes[i].hint == 0
    ensures Tallied(d, log)
  {
    forall i | 0 <= i < |d.nodes| ensures Shows(d.nodes[i], Times(log, i)) {
      if i < |c.nodes| {
        assert Shows(c.nodes[i], Times(log, i));
      } else {
        TimesAbsent(log, i);
      }
    }
  }

  /** What a node shows depends on its count and hint only. */
  lemma ShowsAs(n: Node, m: Node, hits: nat)
    requires Shows(n, hits) && m.executionCount == n.executionCount && m.hint == n.hint
    ensures Shows(m, hits)
  {
  }

  lemma TalliedHit(c: Cache, d: Cache, log: seq<nat>, h: nat, clock: Word)
    requires Tallied(c, log) && h < |c.nodes| && |d.nodes| == |c.nodes|
    requires Shows(c.nodes[h], Times(log, h))
    requires d.nodes[h].executionCount == Hit(c.nodes[h], clock).executionCount
    requires d.nodes[h].hint == Hit(c.nodes[h], clock).hint
    requires forall i :: 0 <= i < |c.nodes| && i != h ==> d.nodes[i] == c.nodes[i]
    ensures Tallied(d, log + [h])
  {
    HitShows(c.nodes[h], Times(log, h), clock);
    var now := log + [h];
    forall i | 0 <= i < |d.nodes| ensures Shows(d.nodes[i], Times(now, i)) {
      TimesAfter(log, h, i);
      if i == h {
        ShowsAs(Hit(c.nodes[h], clock), d.nodes[h], Times(log, h) + 1);
      }
    }
  }

  lemma EvictTallies(c: Cache, log: seq<nat>)
    requires Inv(c) && Tallied(c, log)
    ensures Inv(WithRoom(c)) && WithRoom(c).nextAlloc == c.nextAlloc && WithRoom(c).capacity == c.capacity
    ensures Tallied(WithRoom(c), log)
  {
    WithRoomSpec(c);
    VictimSpec(c);
    TalliedSame(c, WithRoom(c), log);
  }

  lemma InsertTallies(c: Cache, key: Key, log: seq<nat>)
    requires Inv(c) && Room(c, key) && Tallied(c, log)
    ensures Tallied(Insert(c, key).1, log)
  {
    LocateIsMapLookup(c, key);
    AsMapIs(c, key);
    if Locate(c, key) == NIL {
      EvictTallies(c, log);
      TalliedSame(WithRoom(c), Pushed(WithRoom(c), key), log);
    } else {
      TalliedSame(c, Insert(c, key).1, log);
    }
  }

  lemma LookupTallies(c: Cache, key: Key, log: seq<nat>)
    requires Inv(c) && Tallied(c, log)
    ensures var i := Locate(c, key);
            if i < 0 then Lookup(c, key).1 == c else i < |c.nodes| && Tallied(Lookup(c, key).1, log + [i])
  {
    LookupSpec(c, key);
    LocateIsMapLookup(c, key);
    AsMapIs(c, key);
    var i := Locate(c, key);
    if i >= 0 {
      TalliedHit(c, Lookup(c, key).1, log, i, c.clock);
    }
  }

  lemma PinTallies(c: Cache, key: Key, up: bool, log: seq<nat>)
    requires Inv(c) && Tallied(c, log)
    ensures var i := Locate(c, key);
            if i < 0 then Pin(c, key, up) == c else i < |c.nodes| && Tallied(Pin(c, key, up), log + [i])
  {
    LookupTallies(c, key, log);
    if Locate(c, key) >= 0 {
      TalliedSame(Lookup(c, key).1, Pin(c, key, up), log + [Locate(c, key)]);
    }
  }

  lemma StepTallies(c: Cache, op: Op, log: seq<nat>)
    requires Inv(c) && HasRoom(c, op) && Tallied(c, log)
    ensures Tallied(Apply(c, op), Noted(log, HitBy(c, op)))
  {
    match op
    case DoLookup(key) => LookupTallies(c, key, log);
    case DoInsert(key) => InsertTallies(c, key, log);
    case DoPin(key, up) => PinTallies(c, key, up, log);
    case DoInvalidate(rip) => TalliedSame(c, Invalidate(c, rip), log);
    case DoConfigure(depth) => TalliedSame(c, Configure(c, depth), log);
  }

  lemma {:induction false} RunTallies(c: Cache, ops: seq<Op>, log: seq<nat>)
    requires Inv(c) && StaysClear(c, ops) && Tallied(c, log)
    ensures Tallied(Run(c, ops), log + HitsOf(c, ops))
    decreases |ops|
  {
    if ops == [] {
      assert log + [] == log;
    } else {
      NotedAppend(log, HitBy(c, ops[0]), HitsOf(Apply(c, ops[0]), ops[1..]));
      StepTallies(c, ops[0], log);
      RunTallies(Apply(c, ops[0]), ops[1..], Noted(log, HitBy(c, ops[0])));
    }
  }

  /** Over every run from the empty cache that stays clear of the table: a node's execution count is one more
    * than how often lookups and pins have found it, modulo 2^32, and its hint is set exactly if they have
    * found it at least 100 times, even after the count has wrapped. */
  lemma CountsAreHits(capacity: nat, depth: Word32, ops: seq<Op>, i: nat)
    requires capacity < W32 && StaysClear(Start(capacity, depth), ops)
    requires i < |Run(Start(capacity, depth), ops).nodes|
    ensures var n, hits := Run(Start(capacity, depth), ops).nodes[i], Times(HitsOf(Start(capacity, depth), ops), i);
            n.executionCount == (1 + hits) % 0x1_0000_0000 && n.hint == if hits >= 100 then 1 else 0
  {
    var log := HitsOf(Start(capacity, depth), ops);
    assert [] + log == log;
    RunTallies(Start(capacity, depth), ops, []);
    assert Shows(Run(Start(capacity, depth), ops).nodes[i], Times(log, i));
  }

  // ---- the bucket of a key -------------------------------------------------

  lemma PowersOfTwo()
    ensures Pow2(7) == 0x80 && Pow2(16) == W16 && Pow2(32) == W32
  {
    PowerOf32();
    assert Pow2(8) == 0x100;
    assert Pow2(12) == 0x1000;
  }

  lemma {:induction false} BitOfProduct(x: nat, n: nat, k: nat)
    ensures Bit(x * Pow2(n), k) == (k >= n && Bit(x, k - n))
    decreases n
  {
    if n > 0 {
      DoubledProduct(x, Pow2(n - 1));
      if k > 0 {
        BitOfProduct(x, n - 1, k - 1);
      }
    }
  }

  lemma DoubledProduct(x: nat, p: nat)
    ensures x * (2 * p) % 2 == 0 && x * (2 * p) / 2 == x * p
  {
    assert x * (2 * p) == 2 * (x * p);
    DoubleParts(x * p, 0);
  }

  lemma ShiftedContext(context: Word, k: nat)
    requires k < 64
    ensures Bit(Low64(128 * context), k) == (k >= 7 && Bit(context, k - 7))
  {
    PowersOfTwo();
    BitOps.PowerOf64();
    BitOfRemainder(context * Pow2(7), 64, k);
    BitOfProduct(context, 7, k);
  }

  /** Bit `k` of the address combined with the context shifted up by seven. */
  predicate MixedBit(key: Key, k: nat) { Bit(key.rip, k) != (k >= 7 && Bit(key.context, k - 7)) }

  lemma FoldBits(h: Word, k: nat)
    requires k < 32
    ensures Bit(XorW(h, h / W32), k) == (Bit(h, k) != Bit(h, k + 32))
  {
    BitOps.LogicBits(h, h / W32, k);
    PowersOfTwo();
    BitOfQuotient(h, 32, W32, h / W32, k);
  }

  lemma FoldAgain(h: Word, k: nat)
    requires k < 16
    ensures Bit(XorW(h, h / W16) % W16, k) == (Bit(h, k) != Bit(h, k + 16))
  {
    BitOps.LogicBits(h, h / W16, k);
    PowersOfTwo();
    BitOfQuotient(h, 16, W16, h / W16, k);
    BitOfRemainder(XorW(h, h / W16), 16, k);
  }

  /** The bucket of a key: its 64 mixed bits folded to 16, four on each. */
  lemma HashBits(key: Key, k: nat)
    requires k < 16
    ensures Bit(Hash(key), k)
            == ((MixedBit(key, k) != MixedBit(key, k + 32)) != (MixedBit(key, k + 16) != MixedBit(key, k + 48)))
  {
    var h0 := XorW(key.rip, Low64(128 * key.context));
    MixBits(key, k);
    MixBits(key, k + 16);
    MixBits(key, k + 32);
    MixBits(key, k + 48);
    FoldBits(h0, k);
    FoldBits(h0, k + 16);
    FoldAgain(XorW(h0, h0 / W32), k);
  }

  lemma MixBits(key: Key, k: nat)
    requires k < 64
    ensures Bit(XorW(key.rip, Low64(128 * key.context)), k) == MixedBit(key, k)
  {
    BitOps.LogicBits(key.rip, Low64(128 * key.context), k);
    ShiftedContext(key.context, k);
  }
}

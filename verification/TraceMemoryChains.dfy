/** Exactly when an insertion leaves every chain of the trace cache whole: the bucket table lies at the end
  * of the arena, and the first node that reaches it overwrites its words. */
module TraceMemoryChains {
  import opened Words
  import opened TraceCache
  import opened TraceEviction
  import opened TraceCacheMap
  import opened TraceCacheRuns
  import opened TraceMemory

  lemma MakeRoomIntact(r: Region)
    requires Intact(r)
    ensures Intact(MakeRoom(r)) && View(MakeRoom(r)) == WithRoom(View(r))
    ensures WithRoom(View(r)).buckets == View(r).buckets
    ensures forall key :: key !in AsMap(View(r)) ==> key !in AsMap(WithRoom(View(r)))
  {
    MakeRoomView(r);
    WithRoomSpec(View(r));
  }

  lemma InsertFound(r: Region, key: Key)
    requires Intact(r) && Locate(View(r), key) != NIL
    ensures var (i, d) := InsertInto(r, key);
            && RegionOk(d) && d.used == r.used && d.nextAlloc == r.nextAlloc && d.l == r.l
            && (i, View(d)) == Insert(View(r), key)
  {
    var i := Locate(View(r), key);
    StampView(r, i, View(r).nodes[i].hint, r.clock % W32);
  }

  lemma InsertAbsent(r: Region, key: Key)
    requires Intact(r) && Locate(View(r), key) == NIL && r.nextAlloc < Clear(r.l)
    ensures var (i, d) := InsertInto(r, key);
            && RegionOk(d) && d.used == d.nextAlloc == r.nextAlloc + 1 && d.l == r.l
            && (i, View(d)) == Insert(View(r), key)
  {
    MakeRoomIntact(r);
    LinkClear(MakeRoom(r), key);
    WrapComesLate(MakeRoom(r));
  }

  /** While the key is present or the slot is clear of the table, the insertion is the abstract one and
    * the region stays intact. */
  lemma InsertClear(r: Region, key: Key)
    requires Intact(r) && Room(View(r), key)
    ensures var (i, d) := InsertInto(r, key);
            Intact(d) && (i, View(d)) == Insert(View(r), key)
  {
    InsertSpec(View(r), key);
    if Locate(View(r), key) != NIL {
      InsertFound(r, key);
    } else {
      InsertAbsent(r, key);
    }
  }

  // ---- the first node that touches the table -------------------------------

  lemma TouchPlace(r: Region)
    requires Intact(r) && r.nextAlloc == Clear(r.l)
    ensures NextSlot(r) == r.nextAlloc < Slots(r.l)
    ensures At(r.nextAlloc) <= Table(r.l) <= At(r.nextAlloc) + 7 && At(r.nextAlloc) + NODE <= r.l.size
  {
    WrapComesLate(r);
    SlotInside(r.l, r.nextAlloc);
  }

  lemma WildHasNoPath(nodes: seq<Node>, i: int, s: seq<nat>)
    requires i == WILD || (0 <= i < |nodes| && nodes[i].next == WILD)
    ensures !IsPath(nodes, i, s)
  {
    if s != [] && s[1..] != [] && i >= 0 {
      assert IsPath(nodes, i, s) ==> IsPath(nodes, nodes[i].next, s[1..]);
    }
  }

  lemma WildBreaks(c: Cache, b: nat)
    requires b < |c.buckets| && -2 <= c.buckets[b] < |c.nodes|
    requires c.buckets[b] == WILD || (c.buckets[b] >= 0 && c.nodes[c.buckets[b]].next == WILD)
    ensures !ChainExact(c, b)
  {
    forall s: seq<nat> ensures !IsPath(c.nodes, c.buckets[b], s) {
      WildHasNoPath(c.nodes, c.buckets[b], s);
    }
  }

  /** The word with the valid byte, as the new node leaves it, is odd. */
  lemma FlagWordOdd(w: Word)
    ensures w - FlagByte(w) + 1 < W64 && (w - FlagByte(w) + 1) % 2 == 1
  {
    OddForm(w - FlagByte(w) + 1, 128 * (w / 256));
  }

  lemma LinkedWords(r: Region, key: Key, s: nat)
    requires RegionOk(r) && s == NextSlot(r) && At(s) + 6 >= Table(r.l)
    ensures At(s) + NODE <= r.l.size && s < LinkNew(r, key).used
    ensures var w, d := r.words[At(s) + 6], LinkNew(r, key).words;
            var odd := w - FlagByte(w) + 1;
            if Table(r.l) + Hash(key) == At(s) + 6 then
              d[At(s) + 7] == odd && d[At(s) + 6] == Address(r.l, s)
            else d[At(s) + 6] == odd
  {
    SlotInside(r.l, s);
    FlagWordOdd(r.words[At(s) + 6]);
  }

  /** Where the two words lead that hold the valid byte or have taken its place. */
  lemma FlagPointers(l: Layout, d: Region, s: nat, odd: Word, b: nat, own: bool)
    requires RegionOk(d) && d.l == l && s < d.used && At(s) + NODE <= l.size
    requires At(s) + 6 == Table(l) + b && odd % 2 == 1
    requires if own then d.words[At(s) + 7] == odd && d.words[At(s) + 6] == Address(l, s) else d.words[At(s) + 6] == odd
    ensures if own then Pointee(l, d.words[Table(l) + b], d.used) == s && Pointee(l, d.words[At(s) + 7], d.used) == WILD
            else Pointee(l, d.words[Table(l) + b], d.used) == WILD
  {
    OddIsWild(l, odd, d.used);
    PointeeOfAddress(l, s, d.used);
  }

  /** The valid byte of the node in slot `s` lies in the table, and the bucket word there, or the node's own
    * link if the bucket leads to the node, is no pointer. */
  predicate FlagBroken(r: Region, s: nat) {
    && RegionOk(r) && s < r.used && At(s) + NODE <= r.l.size && Table(r.l) <= At(s) + 6
    && var p := Pointee(r.l, r.words[At(s) + 6], r.used);
       p == WILD || (p == s && Pointee(r.l, r.words[At(s) + 7], r.used) == WILD)
  }

  lemma FlagBrokenBreaks(r: Region, s: nat)
    requires FlagBroken(r, s)
    ensures At(s) + 6 - Table(r.l) < BUCKETS && !ChainExact(View(r), At(s) + 6 - Table(r.l))
  {
    var b := At(s) + 6 - Table(r.l);
    BucketView(r, b);
    NodeView(r, s);
    WildBreaks(View(r), b);
  }

  lemma LinkFlagBroken(r: Region, key: Key, s: nat)
    requires RegionOk(r) && s == NextSlot(r) && At(s) + 6 >= Table(r.l)
    ensures FlagBroken(LinkNew(r, key), s)
  {
    LinkedWords(r, key, s);
    FlagWordOdd(r.words[At(s) + 6]);
    var odd, b := r.words[At(s) + 6] - FlagByte(r.words[At(s) + 6]) + 1, At(s) + 6 - Table(r.l);
    FlagPointers(r.l, LinkNew(r, key), s, odd, b, b == Hash(key));
  }

  /** From any state at all, broken or not: a new node whose valid byte lies in the table makes the bucket
    * word there, or its own link, no pointer. */
  lemma FlagBreaks(r: Region, key: Key)
    requires RegionOk(r) && At(NextSlot(r)) + 6 >= Table(r.l)
    ensures At(NextSlot(r)) + 6 - Table(r.l) < BUCKETS
    ensures !ChainExact(View(LinkNew(r, key)), At(NextSlot(r)) + 6 - Table(r.l))
  {
    LinkFlagBroken(r, key, NextSlot(r));
    FlagBrokenBreaks(LinkNew(r, key), NextSlot(r));
  }

  /** The link is the only word of the new node that lies in the table, as the word of bucket 0. */
  lemma LinkOnlyView(r: Region, key: Key)
    requires Intact(r) && r.nextAlloc == Clear(r.l) && At(r.nextAlloc) + 7 == Table(r.l)
    ensures var v, c, h := View(LinkNew(r, key)), View(r), Hash(key);
            var first := if h == 0 then r.nextAlloc else c.buckets[h];
            && v.nodes == c.nodes + [NewNode(key, r.clock, first)]
            && v.buckets == c.buckets[h := r.nextAlloc][0 := first]
  {
    var s, h := r.nextAlloc, Hash(key);
    var c, v := View(r), View(LinkNew(r, key));
    TouchPlace(r);
    forall i | 0 <= i < s ensures v.nodes[i] == c.nodes[i] {
      LinkOnlyNode(r, key, i);
    }
    forall b | 0 <= b < BUCKETS
      ensures v.buckets[b] == c.buckets[h := s][0 := if h == 0 then s else c.buckets[h]][b]
    {
      LinkOnlyBucket(r, key, b);
    }
    LinkOnlyNewest(r, key);
  }

  lemma LinkOnlyNode(r: Region, key: Key, i: nat)
    requires Intact(r) && r.nextAlloc == Clear(r.l) && At(r.nextAlloc) + 7 == Table(r.l) && i < r.nextAlloc
    ensures View(LinkNew(r, key)).nodes[i] == View(r).nodes[i]
  {
    TouchPlace(r);
    SlotInside(r.l, i);
    var d := LinkNew(r, key);
    assert SameSlot(r.words, d.words, At(i));
    assert LinkOk(View(r).nodes, i);
    SameNode(r.l, r.words, d.words, r.nextAlloc, r.nextAlloc + 1, i);
  }

  lemma LinkOnlyWord(r: Region, key: Key, b: nat)
    requires Intact(r) && r.nextAlloc == Clear(r.l) && At(r.nextAlloc) + 7 == Table(r.l) && b < BUCKETS
    ensures r.nextAlloc < Slots(r.l) && LinkNew(r, key).l == r.l && LinkNew(r, key).used == r.nextAlloc + 1
    ensures LinkNew(r, key).words[Table(r.l) + b]
            == if b == Hash(key) then Address(r.l, r.nextAlloc)
               else if b == 0 then r.words[Table(r.l) + Hash(key)] else r.words[Table(r.l) + b]
  {
    TouchPlace(r);
  }

  lemma LinkOnlyBucket(r: Region, key: Key, b: nat)
    requires Intact(r) && r.nextAlloc == Clear(r.l) && At(r.nextAlloc) + 7 == Table(r.l) && b < BUCKETS
    ensures View(LinkNew(r, key)).buckets[b]
            == if b == Hash(key) then r.nextAlloc
               else if b == 0 then View(r).buckets[Hash(key)] else View(r).buckets[b]
  {
    var s, h := r.nextAlloc, Hash(key);
    LinkOnlyWord(r, key, b);
    BucketView(LinkNew(r, key), b);
    assert View(LinkNew(r, key)).buckets[b] == Pointee(r.l, LinkNew(r, key).words[Table(r.l) + b], s + 1);
    if b == h {
      PointeeOfAddress(r.l, s, s + 1);
    } else if b == 0 {
      KnownPointer(r, h);
    } else {
      KnownPointer(r, b);
    }
  }

  lemma LinkOnlyNewest(r: Region, key: Key)
    requires Intact(r) && r.nextAlloc == Clear(r.l) && At(r.nextAlloc) + 7 == Table(r.l)
    ensures |View(LinkNew(r, key)).nodes| == r.nextAlloc + 1
    ensures View(LinkNew(r, key)).nodes[r.nextAlloc]
            == NewNode(key, r.clock, if Hash(key) == 0 then r.nextAlloc else View(r).buckets[Hash(key)])
  {
    var s := r.nextAlloc;
    TouchPlace(r);
    LinkOnlyBucket(r, key, 0);
    BucketView(LinkNew(r, key), 0);
    NodeView(LinkNew(r, key), s);
    LinkOnlyFields(r.l, r.words, s, Hash(key), key, r.clock % W32, s + 1);
  }

  lemma LinkOnlyFields(l: Layout, m: Mem, s: nat, h: nat, key: Key, lru: Word32, n: nat)
    requires LayoutOk(l) && |m| == l.size && s < Slots(l) && h < BUCKETS && At(s) + 7 == Table(l)
    ensures At(s) + NODE <= l.size
    ensures var d := Linked2(l, Filled(m, At(s), key, lru), s, h);
            NodeAt(l, d, n, s) == Node(key, 0, 0, 0, 1, 0, 0, lru, true, Pointee(l, d[Table(l)], n))
  {
    SlotInside(l, s);
    PackParts(1, 0);
    PackParts(0, lru);
    FlagCleared(m[At(s) + 6]);
  }

  /** The new node's link is bucket 0 itself, and both chains it joins are empty. */
  predicate HarmlessLink(r: Region, key: Key)
    requires Intact(r)
  {
    && At(Clear(r.l)) + 7 == Table(r.l) && Hash(key) != 0
    && View(r).buckets[0] == NIL && View(r).buckets[Hash(key)] == NIL
  }

  /** A node that is its own successor ends no path. */
  lemma LoopBreaks(c: Cache, b: nat)
    requires b < |c.buckets| && 0 <= c.buckets[b] < |c.nodes| && c.nodes[c.buckets[b]].next == c.buckets[b]
    ensures !ChainExact(c, b)
  {
    var i := c.buckets[b];
    forall s: seq<nat> | IsPath(c.nodes, i, s) ensures !NoDuplicates(s) {
      assert s[0] == i && IsPath(c.nodes, i, s[1..]);
      assert s[1..] != [] && s[1..][0] == i;
      assert s[0] == s[1];
    }
  }

  /** A bucket that starts a chain with a node of another bucket, or is null but has nodes. */
  lemma WrongStartBreaks(c: Cache, b: nat, k: nat)
    requires b < |c.buckets| && k < |c.nodes|
    requires (c.buckets[b] == k && !HashesTo(c.nodes, k, b)) || (c.buckets[b] == NIL && HashesTo(c.nodes, k, b))
    ensures !ChainExact(c, b)
  {
    forall s: seq<nat> | IsPath(c.nodes, c.buckets[b], s) ensures k in s <==> c.buckets[b] == k {
    }
  }

  lemma LinkOnlyBreaks(r: Region, key: Key)
    requires Intact(r) && r.nextAlloc == Clear(r.l) && At(r.nextAlloc) + 7 == Table(r.l) && !HarmlessLink(r, key)
    ensures !ChainExact(View(LinkNew(r, key)), 0)
  {
    var c, v, h := View(r), View(LinkNew(r, key)), Hash(key);
    LinkOnlyView(r, key);
    assert BucketOk(c, 0) && BucketOk(c, h);
    if h == 0 {
      LoopBreaks(v, 0);
    } else if c.buckets[h] != NIL {
      assert HashesTo(c.nodes, c.buckets[h], h);
      WrongStartBreaks(v, 0, c.buckets[h]);
    } else {
      assert HashesTo(c.nodes, c.buckets[0], 0);
      WrongStartBreaks(v, 0, c.buckets[0]);
    }
  }

  /** The cache with one slot more below the table. */
  function Wider(c: Cache): Cache { c.(capacity := c.capacity + 1) }

  /** With both chains empty the region is as if the slot had been clear of the table. */
  lemma HarmlessPushes(r: Region, key: Key)
    requires Intact(r) && r.nextAlloc == Clear(r.l) && HarmlessLink(r, key)
    ensures var p, v := Pushed(Wider(View(r)), key), View(LinkNew(r, key));
            v.nodes == p.nodes && v.buckets == p.buckets
  {
    LinkOnlyView(r, key);
    var c := View(r);
    assert c.buckets[Hash(key) := r.nextAlloc][0 := NIL] == c.buckets[Hash(key) := r.nextAlloc];
  }

  lemma LinkOnlyKeeps(r: Region, key: Key, b: nat)
    requires Intact(r) && r.nextAlloc == Clear(r.l) && HarmlessLink(r, key) && key !in AsMap(View(r)) && b < BUCKETS
    ensures ChainExact(View(LinkNew(r, key)), b)
  {
    WiderInv(View(r), Wider(View(r)));
    PushedSpec(Wider(View(r)), key);
    HarmlessPushes(r, key);
    InvChainsExact(Pushed(Wider(View(r)), key), b);
    SameChain(Pushed(Wider(View(r)), key), View(LinkNew(r, key)), b);
  }

  lemma SameChain(p: Cache, v: Cache, b: nat)
    requires |p.buckets| == |v.buckets| == BUCKETS && b < BUCKETS && ChainExact(p, b)
    requires v.nodes == p.nodes && v.buckets[b] == p.buckets[b]
    ensures ChainExact(v, b)
  {
    var s :| IsPath(p.nodes, p.buckets[b], s) && NoDuplicates(s)
      && forall i :: 0 <= i < |p.nodes| ==> (i in s <==> HashesTo(p.nodes, i, b));
  }

  lemma WiderInv(c: Cache, d: Cache)
    requires Inv(c) && d == Wider(c) && c.capacity + 1 < W32
    ensures Inv(d) && AsMap(d) == AsMap(c)
  {
    assert Weakened(c, d.(capacity := c.capacity));
    forall b | 0 <= b < BUCKETS ensures BucketOk(d, b) {
      assert BucketOk(c, b);
    }
    forall key ensures (key in AsMap(c) <==> key in AsMap(d)) && (key in AsMap(d) ==> AsMap(c)[key] == AsMap(d)[key]) {
      AsMapIs(c, key);
      AsMapIs(d, key);
    }
  }

  ghost predicate AllChainsExact(c: Cache)
    requires |c.buckets| == BUCKETS
  {
    forall b :: 0 <= b < BUCKETS ==> ChainExact(c, b)
  }

  lemma TouchIff(r: Region, key: Key)
    requires Intact(r) && r.nextAlloc == Clear(r.l) && key !in AsMap(View(r))
    ensures AllChainsExact(View(LinkNew(r, key))) <==> HarmlessLink(r, key)
  {
    TouchPlace(r);
    if At(r.nextAlloc) + 6 >= Table(r.l) {
      FlagBreaks(r, key);
    } else if HarmlessLink(r, key) {
      forall b | 0 <= b < BUCKETS ensures ChainExact(View(LinkNew(r, key)), b) {
        LinkOnlyKeeps(r, key, b);
      }
    } else {
      LinkOnlyBreaks(r, key);
    }
  }

  /**
   * From every state with an intact table, an insertion leaves all chains whole if and only if the key is
   * present, or the slot ends below the table, or only the new node's link lies in the table (which needs
   * a region size of 48 modulo 64 bytes), the key does not hash to 0, and bucket 0 and the key's bucket
   * are both empty.
   */
  lemma InsertKeepsChainsIff(r: Region, key: Key)
    requires Intact(r)
    ensures AllChainsExact(View(InsertInto(r, key).1))
            <==> key in AsMap(View(r)) || r.nextAlloc < Clear(r.l) || HarmlessLink(r, key)
  {
    LocateIsMapLookup(View(r), key);
    if Room(View(r), key) {
      InsertClear(r, key);
      var d := InsertInto(r, key).1;
      forall b | 0 <= b < BUCKETS ensures ChainExact(View(d), b) {
        InvChainsExact(View(d), b);
      }
    } else {
      MakeRoomIntact(r);
      TouchIff(MakeRoom(r), key);
    }
  }

  /** The default region of four megabytes: 57343 slots end below the table, 65535 below the allocator's
    * bound, and whatever the key, the insertion that takes slot 57343 breaks a chain. */
  lemma DefaultRegionBreaks(r: Region, key: Key)
    requires Intact(r) && r.l.size == 0x40_0000 / 8 && r.nextAlloc == 57343 && key !in AsMap(View(r))
    ensures Clear(r.l) == 57343 && Slots(r.l) == 65535
    ensures !AllChainsExact(View(InsertInto(r, key).1))
  {
    InsertKeepsChainsIff(r, key);
  }

  // ---- that state is reached -----------------------------------------------

  /** A region as initialisation leaves it, whatever its arena holds. */
  predicate IsFresh(r: Region) {
    && RegionOk(r) && r.nextAlloc == r.used == r.entryCount == 0
    && forall k :: Table(r.l) <= k < r.l.size ==> r.words[k] == 0
  }

  lemma FreshIntact(r: Region)
    requires IsFresh(r)
    ensures Intact(r) && AsMap(View(r)) == map[]
  {
    SlotInside(r.l, 0);
    var c := View(r);
    assert c.nodes == [];
    forall b | 0 <= b < BUCKETS ensures BucketOk(c, b) {
      BucketView(r, b);
    }
  }

  /** Insertions of the keys (0, 0), (1, 0) and so on, as long as the table is intact. */
  ghost function AfterInsertions(r: Region, n: nat): Region
    requires n <= W64
    decreases n
  {
    if n == 0 then r
    else
      var d := AfterInsertions(r, n - 1);
      if Intact(d) then InsertInto(d, Key(n - 1, 0)).1 else d
  }

  /** The first `slots` slots are taken, and every address in the cache is below `bound`. */
  ghost predicate Grown(r: Region, l: Layout, slots: nat, bound: nat) {
    && Intact(r) && r.l == l && r.nextAlloc == slots
    && forall key :: key in AsMap(View(r)) ==> key.rip < bound
  }

  lemma InsertNext(r: Region, slots: nat, n: Word)
    requires Grown(r, r.l, slots, n) && slots < Clear(r.l)
    ensures Grown(InsertInto(r, Key(n, 0)).1, r.l, slots + 1, n + 1)
  {
    var key := Key(n, 0);
    LocateIsMapLookup(View(r), key);
    InsertClear(r, key);
    InsertAbsent(r, key);
    InsertSpec(View(r), key);
  }

  lemma {:induction false} InsertMany(r: Region, n: nat)
    requires Grown(r, r.l, 0, 0) && n <= Clear(r.l) && n <= W64
    ensures Grown(AfterInsertions(r, n), r.l, n, n)
    decreases n
  {
    if n > 0 {
      InsertMany(r, n - 1);
      InsertNext(AfterInsertions(r, n - 1), n - 1, n - 1);
    }
  }

  /** From every fresh region of four megabytes, 57343 insertions keep the table intact and the next one
    * breaks a chain. */
  lemma DefaultRegionReached(r: Region, n: nat)
    requires IsFresh(r) && r.l.size == 0x40_0000 / 8 && n == 57343
    ensures var full := AfterInsertions(r, n);
            && Intact(full) && full.nextAlloc == n
            && !AllChainsExact(View(InsertInto(full, Key(n, 0)).1))
  {
    FreshIntact(r);
    InsertMany(r, n);
    DefaultRegionBreaks(AfterInsertions(r, n), Key(n, 0));
  }

  // ---- and is not left again -----------------------------------------------

  /** What the operations store in the region: a new node, or one word of a slot written before. */
  datatype Storing =
    | Link(key: Key)
    | Count(i: nat, count: Word32, pins: Word32)
    | Stamp(i: nat, hint: Word32)
    | Evict(i: nat)
    | Drop(i: nat)

  function AfterStoring(r: Region, op: Storing): (d: Region)
    requires RegionOk(r)
    ensures RegionOk(d) && d.l == r.l
    ensures d.nextAlloc == if op.Link? then NextSlot(r) + 1 else r.nextAlloc
  {
    match op
    case Link(key) => LinkNew(r, key)
    case Count(i, count, pins) => if i < r.used then WithCounts(r, i, count, pins) else r
    case Stamp(i, hint) =>
      if i < r.used then WithStamp(r, i, hint, r.clock % W32).(clock := AddW(r.clock, 1)) else r
    case Evict(i) => if i < r.used then WithoutValid(r, i).(entryCount := AfterEviction(r.entryCount)) else r
    case Drop(i) => if i < r.used then WithoutValid(r, i) else r
  }

  function AfterAll(r: Region, ops: seq<Storing>): (d: Region)
    requires RegionOk(r)
    ensures RegionOk(d)
    decreases |ops|
  {
    if ops == [] then r else AfterAll(AfterStoring(r, ops[0]), ops[1..])
  }

  function Links(ops: seq<Storing>): nat {
    if ops == [] then 0 else (if ops[0].Link? then 1 else 0) + Links(ops[1..])
  }

  lemma {:induction false} LinksAdvance(r: Region, ops: seq<Storing>)
    requires RegionOk(r) && r.nextAlloc + Links(ops) <= Slots(r.l)
    ensures AfterAll(r, ops).l == r.l && AfterAll(r, ops).nextAlloc == r.nextAlloc + Links(ops)
    decreases |ops|
  {
    if ops != [] {
      LinksAdvance(AfterStoring(r, ops[0]), ops[1..]);
    }
  }

  /** From the first node whose valid byte lies in the table on, whatever hits, pins, evictions and
    * invalidations store in between, every insertion of a new node leaves some chain broken, until the
    * allocator reaches its own bound. */
  lemma LaterLinksBreak(r: Region, ops: seq<Storing>, key: Key)
    requires RegionOk(r) && At(r.nextAlloc) + 6 >= Table(r.l) && r.nextAlloc + Links(ops) < Slots(r.l)
    ensures !AllChainsExact(View(LinkNew(AfterAll(r, ops), key)))
  {
    LinksAdvance(r, ops);
    var d := AfterAll(r, ops);
    SlotInside(r.l, d.nextAlloc);
    FlagBreaks(d, key);
  }

  /** The operation invalidates no node. */
  predicate KeepsValid(op: Storing) { !op.Evict? && !op.Drop? }

  lemma CountsKeepFlag(r: Region, s: nat, i: nat, o: nat, w: Word)
    requires FlagBroken(r, s) && i < r.used && o < 6
    ensures FlagBroken(Stored(r, i, o, w), s)
  {
    SlotInside(r.l, i);
  }

  lemma StoringKeepsFlag(r: Region, s: nat, op: Storing)
    requires FlagBroken(r, s) && KeepsValid(op) && !op.Link?
    ensures FlagBroken(AfterStoring(r, op), s)
  {
    match op
    case Count(i, count, pins) =>
      if i < r.used {
        CountsKeepFlag(r, s, i, 4, Pack(count, pins));
      }
    case Stamp(i, hint) =>
      if i < r.used {
        CountsKeepFlag(r, s, i, 5, Pack(hint, r.clock % W32));
      }
  }

  lemma {:induction false} StaysBroken(r: Region, s: nat, ops: seq<Storing>) returns (b: nat)
    requires FlagBroken(r, s) && s + 1 == r.nextAlloc && r.nextAlloc + Links(ops) <= Slots(r.l)
    requires forall i :: 0 <= i < |ops| ==> KeepsValid(ops[i])
    ensures b < BUCKETS && !ChainExact(View(AfterAll(r, ops)), b)
    decreases |ops|
  {
    if ops == [] {
      b := At(s) + 6 - Table(r.l);
      FlagBrokenBreaks(r, s);
    } else if ops[0].Link? {
      LinkFlagBroken(r, ops[0].key, s + 1);
      b := StaysBroken(LinkNew(r, ops[0].key), s + 1, ops[1..]);
    } else {
      StoringKeepsFlag(r, s, ops[0]);
      b := StaysBroken(AfterStoring(r, ops[0]), s, ops[1..]);
    }
  }

  /** Over every run of insertions, lookups and pins, as long as nothing is invalidated: from the first
    * node whose valid byte lies in the table on some chain is broken, until the allocator reaches its own
    * bound. */
  lemma BrokenFromFirstOverlap(r: Region, key: Key, ops: seq<Storing>)
    requires RegionOk(r) && At(r.nextAlloc) + 6 >= Table(r.l) && r.nextAlloc + 1 + Links(ops) <= Slots(r.l)
    requires forall i :: 0 <= i < |ops| ==> KeepsValid(ops[i])
    ensures !AllChainsExact(View(AfterAll(LinkNew(r, key), ops)))
  {
    LinkFlagBroken(r, key, r.nextAlloc);
    var b := StaysBroken(LinkNew(r, key), r.nextAlloc, ops);
  }
}

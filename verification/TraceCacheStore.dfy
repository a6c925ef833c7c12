/**
 * The trace cache as it is stored: one region of memory words that holds the arena and the bucket table,
 * and the header counters, updated in place by chain-walking loops. Every method is proved against the
 * functions of modules TraceCache and TraceMemory.
 */
module TraceCacheStore {
  import opened Words
  import opened TraceCache
  import opened TraceEviction
  import opened TraceCacheMap
  import M = TraceMemory
  import opened TraceMemory
  import opened TraceMemoryChains

  const LRU_SCAN := 64

  class TraceCacheHeader {
    const base: nat
    const mem: array<Word>
    var nextAlloc: nat
    var entryCount: nat
    var clock: Word
    var scanDepth: Word32

    /** How many arena slots have been written. */
    ghost var used: nat

    function Place(): Layout
      reads mem
    {
      Layout(base, mem.Length)
    }

    ghost function Whole(): Region
      reads this, mem
    {
      Region(Place(), mem[..], nextAlloc, used, entryCount, clock, scanDepth)
    }

    /** No node has reached the bucket table. */
    ghost predicate Shape()
      reads this, mem
    {
      RegionOk(Whole()) && used == nextAlloc <= Clear(Place())
    }

    ghost function State(): Cache
      requires RegionOk(Whole())
      reads this, mem
    {
      View(Whole())
    }

    ghost predicate Valid()
      reads this, mem
    {
      Intact(Whole())
    }

    /** Takes over a region whatever it holds; only the bucket table is cleared. */
    constructor (base: nat, region: array<Word>)
      requires LayoutOk(Layout(base, region.Length))
      modifies region
      ensures mem == region && this.base == base
      ensures Valid() && State() == Empty(Clear(Place()), LRU_SCAN) && IsFresh(Whole())
      ensures region[..Table(Place())] == old(region[..])[..Table(Place())]
    {
      this.base := base;
      mem := region;
      nextAlloc, entryCount, clock, scanDepth, used := 0, 0, 0, LRU_SCAN, 0;
      new;
      var first := region.Length - BUCKETS;
      for b := 0 to BUCKETS
        invariant forall k :: first <= k < first + b ==> region[k] == 0
        invariant forall k :: 0 <= k < first ==> region[k] == old(region[k])
        invariant nextAlloc == used == entryCount == 0 && clock == 0 && scanDepth == LRU_SCAN
      {
        region[first + b] := 0;
      }
      SlotInside(Place(), 0);
      assert State().buckets == Empty(Clear(Place()), LRU_SCAN).buckets;
      assert State().nodes == [];
      forall b | 0 <= b < BUCKETS ensures BucketOk(State(), b) {
      }
    }

    /** The node in a slot, read field by field. */
    function NodeOf(i: nat): (x: Node)
      requires Shape() && i < nextAlloc
      reads this, mem
      ensures x == State().nodes[i]
    {
      SlotInside(Place(), i);
      NodeAt(Place(), mem[..], nextAlloc, i)
    }

    /** The slot a bucket leads to. */
    function BucketOf(b: nat): (i: int)
      requires Shape() && b < BUCKETS
      reads this, mem
      ensures i == State().buckets[b]
    {
      Pointee(Place(), mem[mem.Length - BUCKETS + b], nextAlloc)
    }

    method StoreWord(i: nat, o: nat, w: Word)
      requires Shape() && i < used && o < NODE
      modifies mem
      ensures Shape() && Whole() == Stored(old(Whole()), i, o, w)
    {
      SlotInside(Place(), i);
      mem[At(i) + o] := w;
    }

    /** Writes the stamp, and the hint that shares its word. */
    method StampEntry(i: nat, hint: Word32)
      requires Shape() && i < used
      modifies mem
      ensures Shape() && Whole() == WithStamp(old(Whole()), i, hint, clock % W32)
    {
      StoreWord(i, 5, Pack(hint, clock % W32));
    }

    method CountEntry(i: nat, count: Word32, pins: Word32)
      requires Shape() && i < used
      modifies mem
      ensures Shape() && Whole() == WithCounts(old(Whole()), i, count, pins)
    {
      StoreWord(i, 4, Pack(count, pins));
    }

    method DropEntry(i: nat)
      requires Shape() && i < used
      modifies mem
      ensures Shape() && Whole() == WithoutValid(old(Whole()), i)
    {
      SlotInside(Place(), i);
      var w := mem[At(i) + 6];
      StoreWord(i, 6, w - FlagByte(w));
    }

    method ConfigureV71()
      requires Valid()
      modifies this`scanDepth
      ensures Shape() && State() == Configure(old(State()), 128)
    {
      scanDepth := 128;
      assert State().nodes == old(State()).nodes && State().buckets == old(State()).buckets;
    }

    /** The walk along one chain, shared by lookup and insertion. */
    method Walk(key: Key) returns (entry: int)
      requires Valid()
      ensures entry == Locate(State(), key)
    {
      ghost var c := State();
      assert BucketOk(c, Hash(key));
      entry := BucketOf(Hash(key));
      while entry != NIL
        invariant NIL <= entry < used
        invariant Find(c.nodes, entry, key) == Locate(c, key)
        decreases entry
      {
        assert LinkOk(c.nodes, entry);
        var n := NodeOf(entry);
        if n.key == key && n.valid {
          return;
        }
        entry := n.next;
      }
    }

    method LookupEntry(key: Key) returns (entry: int)
      requires Valid()
      modifies this`clock, mem
      ensures Valid() && (entry, State()) == Lookup(old(State()), key)
    {
      LookupSpec(State(), key);
      entry := Walk(key);
      if entry != NIL {
        HitView(Whole(), entry);
        HitEntry(entry);
      }
    }

    /** A use: counts it, stamps it and marks a hot entry. */
    method HitEntry(entry: nat)
      requires Shape() && entry < used
      modifies this`clock, mem
      ensures Shape() && Whole() == HitRegion(old(Whole()), entry)
    {
      var n := NodeOf(entry);
      var count := (n.executionCount + 1) % W32;
      CountEntry(entry, count, n.pinCount);
      StampEntry(entry, HintAfter(n.hint, count));
      clock := AddW(clock, 1);
    }

    /** Approximate least-recently-used eviction: scan the ring for at most `scanDepth` candidates. */
    method EvictLru()
      requires Valid() && entryCount >= MAX_ENTRIES
      modifies this`entryCount, mem
      ensures Whole() == MakeRoom(old(Whole()))
    {
      var scan := ScanRing();
      ghost var r := Whole();
      MakeRoomIs(r, scan.victim);
      if scan.victim != NIL {
        DropEntry(scan.victim);
        entryCount := AfterEviction(entryCount);
        assert Whole() == WithoutValid(r, scan.victim).(entryCount := AfterEviction(r.entryCount));
      }
    }

    method ScanRing() returns (scan: Scan)
      requires Valid()
      ensures scan.victim == Victim(State()) && NIL <= scan.victim < used
    {
      ghost var c := State();
      ghost var left := |c.buckets|;
      scan := START;
      var bucket: nat := clock % BUCKETS;
      ghost var result := ScanOver(c.nodes, Ring(c, bucket, left), START, scanDepth);
      var i := 0;
      while i < BUCKETS && scan.scanned < scanDepth
        invariant 0 <= i <= BUCKETS && left == BUCKETS - i && bucket < BUCKETS && c == State()
        invariant ScanOver(c.nodes, Ring(c, bucket, left), scan, scanDepth) == result
        decreases BUCKETS - i
      {
        left := left - 1;
        scan := ScanChain(bucket, scan, Ring(c, NextBucket(bucket), left));
        i := i + 1;
        bucket := NextBucket(bucket);
      }
      VictimSpec(c);
      assert scan == result;
    }

    /** The eviction scan along one chain. */
    method ScanChain(bucket: nat, start: Scan, ghost later: seq<nat>) returns (scan: Scan)
      requires Valid() && bucket < BUCKETS
      ensures ScanOver(State().nodes, later, scan, scanDepth)
              == ScanOver(State().nodes, EligibleIn(State().nodes, ChainOf(State(), bucket)) + later, start, scanDepth)
    {
      ghost var c := State();
      scan := start;
      assert BucketOk(c, bucket);
      var entry := BucketOf(bucket);
      ghost var result := ScanOver(c.nodes, EligibleIn(c.nodes, ChainOf(c, bucket)) + later, start, scanDepth);
      while entry != NIL && scan.scanned < scanDepth
        invariant NIL <= entry < used && c == State()
        invariant ScanOver(c.nodes, EligibleIn(c.nodes, Chain(c.nodes, entry)) + later, scan, scanDepth) == result
        decreases entry
      {
        ChainStep(c, scan, entry, later);
        var n := NodeOf(entry);
        if n.valid && n.pinCount == 0 {
          scan := Met(scan, entry, n.lru);
        }
        entry := n.next;
      }
      assert entry == NIL ==> EligibleIn(c.nodes, Chain(c.nodes, entry)) + later == later;
    }

    /** Takes the next arena slot, or slot 0 again beyond the end of the region, fills it and links it in
      * front of its chain, wherever the slot lies: past the clear slots its words are words of the table. */
    method LinkEntry(key: Key) returns (entry: nat)
      requires RegionOk(Whole())
      modifies this`nextAlloc, this`clock, this`used, this`entryCount, mem
      ensures Whole() == M.LinkNew(old(Whole()), key) && entry == NextSlot(old(Whole()))
    {
      ghost var r := Whole();
      SlotInside(Place(), 0);
      if nextAlloc + 1 > (mem.Length - HEADER) / NODE {
        nextAlloc := 0;
      }
      entry := nextAlloc;
      SlotInside(Place(), entry);
      WriteEntry(entry, key);
      nextAlloc := entry + 1;
      used := if entry + 1 > used then entry + 1 else used;
      clock := AddW(clock, 1);
      entryCount := (entryCount + 1) % W32;
      LinkNewIs(r, key, entry, mem[..]);
    }

    method WriteEntry(entry: nat, key: Key)
      requires LayoutOk(Place()) && entry < Slots(Place())
      modifies mem
      ensures At(entry) + NODE <= mem.Length
      ensures mem[..] == M.Linked2(Place(), Filled(old(mem[..]), At(entry), key, clock % W32), entry, Hash(key))
    {
      SlotInside(Place(), entry);
      FillEntry(entry, key);
      LinkUp(entry, Hash(key));
    }

    /** The link takes the bucket's word as it is by now; then the bucket takes the node's address. */
    method LinkUp(entry: nat, h: nat)
      requires LayoutOk(Place()) && entry < Slots(Place()) && h < BUCKETS
      modifies mem
      ensures mem[..] == M.Linked2(Place(), old(mem[..]), entry, h)
    {
      SlotInside(Place(), entry);
      var head := mem.Length - BUCKETS + h;
      mem[At(entry) + 7] := mem[head];
      mem[head] := Address(Place(), entry);
    }

    /** The fields of a new node, its valid byte last. */
    method FillEntry(entry: nat, key: Key)
      requires At(entry) + NODE <= mem.Length
      modifies mem
      ensures mem[..] == Filled(old(mem[..]), At(entry), key, clock % W32)
    {
      var a := At(entry);
      mem[a] := key.rip;
      mem[a + 1] := key.context;
      mem[a + 2] := 0;
      mem[a + 3] := 0;
      mem[a + 4] := Pack(1, 0);
      mem[a + 5] := Pack(0, clock % W32);
      mem[a + 6] := mem[a + 6] - FlagByte(mem[a + 6]) + 1;
    }

    /** The whole insertion: as long as the key is present or the slot is clear of the table the result is
      * the abstract one and the cache stays valid. */
    method InsertEntry(key: Key) returns (entry: int)
      requires Valid()
      modifies this, mem
      ensures RegionOk(Whole()) && (entry, Whole()) == InsertInto(old(Whole()), key)
      ensures old(Room(State(), key)) ==> Valid() && (entry, State()) == Insert(old(State()), key)
    {
      ghost var r := Whole();
      entry := FindOrLink(key);
      if Room(View(r), key) {
        InsertClear(r, key);
      }
    }

    method FindOrLink(key: Key) returns (entry: int)
      requires Valid()
      modifies this, mem
      ensures (entry, Whole()) == InsertInto(old(Whole()), key)
    {
      entry := Walk(key);
      if entry != NIL {
        StampEntry(entry, NodeOf(entry).hint);
        clock := AddW(clock, 1);
        return;
      }
      if entryCount >= MAX_ENTRIES {
        EvictLru();
      }
      entry := LinkEntry(key);
    }

    method SetPins(entry: nat, pins: Word32)
      requires Shape() && entry < used
      modifies mem
      ensures Shape()
      ensures State() == PinnedState(old(State()), entry, pins)
    {
      var count := NodeOf(entry).executionCount;
      CountsView(Whole(), entry, count, pins);
      CountEntry(entry, count, pins);
    }

    method RaisePins(entry: nat)
      requires Shape() && entry < used
      modifies mem
      ensures Shape() && State() == AfterPin(old(State()), entry, true)
    {
      SetPins(entry, (NodeOf(entry).pinCount + 1) % W32);
    }

    method LowerPins(entry: nat)
      requires Shape() && entry < used
      modifies mem
      ensures Shape() && State() == AfterPin(old(State()), entry, false)
    {
      var pins := NodeOf(entry).pinCount;
      if pins > 0 {
        SetPins(entry, pins - 1);
      }
    }

    method PinEntry(key: Key)
      requires Valid()
      modifies this`clock, mem
      ensures Valid() && State() == Pin(old(State()), key, true)
    {
      ghost var c := State();
      var entry := LookupEntry(key);
      PinIs(c, State(), key, true, entry);
      if entry != NIL {
        RaisePins(entry);
      }
    }

    method UnpinEntry(key: Key)
      requires Valid()
      modifies this`clock, mem
      ensures Valid() && State() == Pin(old(State()), key, false)
    {
      ghost var c := State();
      var entry := LookupEntry(key);
      PinIs(c, State(), key, false, entry);
      if entry != NIL {
        LowerPins(entry);
      }
    }

    /** Walks every chain; a chain is decreasing, so what is left of it is what lies below `entry`. */
    method InvalidateRip(rip: Word)
      requires Valid()
      modifies mem
      ensures Valid() && State() == Invalidate(old(State()), rip)
    {
      ghost var c := State();
      InvalidateSpec(c, rip);
      for b := 0 to BUCKETS
        invariant Shape() && State() == c.(nodes := State().nodes)
        invariant Dropping(c, State().nodes, rip, b, used)
      {
        DropChain(c, rip, b);
      }
      assert State().nodes == Invalidate(c, rip).nodes;
    }

    /** Drops the matching nodes of one chain. */
    method DropChain(ghost c: Cache, rip: Word, b: nat)
      requires Inv(c) && b < BUCKETS && Shape() && State() == c.(nodes := State().nodes)
      requires Dropping(c, State().nodes, rip, b, used)
      modifies mem
      ensures Shape() && State() == c.(nodes := State().nodes)
      ensures Dropping(c, State().nodes, rip, b + 1, used)
    {
      DropStart(c, State().nodes, rip, b);
      var entry := BucketOf(b);
      while entry != NIL
        invariant NIL <= entry < used && Shape() && State() == c.(nodes := State().nodes)
        invariant entry != NIL ==> HashesTo(c.nodes, entry, b)
        invariant Dropping(c, State().nodes, rip, b, entry)
        decreases entry
      {
        ghost var before := State().nodes;
        DropStep(c, before, rip, b, entry);
        var n := NodeOf(entry);
        if n.valid && n.key.rip == rip {
          InvalidView(Whole(), entry);
          DropEntry(entry);
        }
        assert State().nodes == before[entry := Dropped(c.nodes[entry], rip)];
        entry := n.next;
      }
      DropEnd(c, State().nodes, rip, b);
    }
  }

  /** Eviction as the code does it, given the victim. */
  lemma MakeRoomIs(r: Region, v: int)
    requires Intact(r) && v == Victim(View(r)) && NIL <= v < r.used && r.entryCount >= MAX_ENTRIES
    ensures MakeRoom(r)
            == if v == NIL then r else WithoutValid(r, v).(entryCount := AfterEviction(r.entryCount))
  {
  }

  function PinnedState(d: Cache, i: nat, pins: Word32): Cache
    requires i < |d.nodes|
  {
    d.(nodes := d.nodes[i := d.nodes[i].(pinCount := pins)])
  }

  /** What pinning and unpinning do to the state the lookup leaves. */
  function AfterPin(d: Cache, i: int, up: bool): Cache {
    if !(0 <= i < |d.nodes|) then d
    else
      var pins := d.nodes[i].pinCount;
      if up then PinnedState(d, i, (pins + 1) % W32) else if pins > 0 then PinnedState(d, i, pins - 1) else d
  }

  lemma PinIs(c: Cache, d: Cache, key: Key, up: bool, i: int)
    requires Inv(c) && i == Lookup(c, key).0 && d == Lookup(c, key).1
    ensures Pin(c, key, up) == AfterPin(d, i, up) && Inv(AfterPin(d, i, up))
  {
    PinSpec(c, key, up);
    LookupSpec(c, key);
  }

  function HintAfter(hint: Word32, count: Word32): Word32 {
    if count > 100 && hint % 2 == 0 then hint + 1 else hint
  }

  ghost function Rewritten(r: Region, i: nat, count: Word32, pins: Word32, hint: Word32, lru: Word32): (d: Region)
    requires RegionOk(r) && i < r.used
    ensures RegionOk(d) && d.clock == r.clock
  {
    WithStamp(WithCounts(r, i, count, pins), i, hint, lru)
  }

  lemma RewrittenView(r: Region, i: nat, count: Word32, pins: Word32, hint: Word32, lru: Word32)
    requires RegionOk(r) && i < r.used <= Clear(r.l)
    ensures View(Rewritten(r, i, count, pins, hint, lru))
            == View(r).(nodes := View(r).nodes[i := View(r).nodes[i].(executionCount := count, pinCount := pins,
                                                                       hint := hint, lru := lru)])
  {
    CountsView(r, i, count, pins);
    StampView(WithCounts(r, i, count, pins), i, hint, lru);
  }

  /** The region after a hit. */
  ghost function HitRegion(r: Region, i: nat): (d: Region)
    requires RegionOk(r) && i < r.used
    ensures RegionOk(d)
  {
    var n := View(r).nodes[i];
    var count := (n.executionCount + 1) % W32;
    Rewritten(r, i, count, n.pinCount, HintAfter(n.hint, count), r.clock % W32).(clock := AddW(r.clock, 1))
  }

  lemma ClockView(r: Region)
    requires RegionOk(r)
    ensures View(r.(clock := AddW(r.clock, 1))) == Advance(View(r))
  {
  }

  lemma HitView(r: Region, i: nat)
    requires RegionOk(r) && i < r.used <= Clear(r.l)
    ensures View(HitRegion(r, i)) == Advance(View(r).(nodes := View(r).nodes[i := Hit(View(r).nodes[i], r.clock)]))
  {
    var n := View(r).nodes[i];
    var count := (n.executionCount + 1) % W32;
    var hint, lru := HintAfter(n.hint, count), r.clock % W32;
    RewrittenView(r, i, count, n.pinCount, hint, lru);
    ClockView(Rewritten(r, i, count, n.pinCount, hint, lru));
    HitNode(n, r.clock);
  }

  lemma HitNode(n: Node, clock: Word)
    ensures var count := (n.executionCount + 1) % W32;
            n.(executionCount := count, pinCount := n.pinCount, hint := HintAfter(n.hint, count), lru := clock % W32)
            == Hit(n, clock)
  {
  }

  /** One node of a chain: a candidate is met, any other node is passed over. */
  lemma ChainStep(c: Cache, scan: Scan, entry: nat, later: seq<nat>)
    requires Inv(c) && scan.scanned < c.scanDepth && entry < |c.nodes|
    ensures NIL <= c.nodes[entry].next < entry
    ensures var n := c.nodes[entry];
            ScanOver(c.nodes, EligibleIn(c.nodes, Chain(c.nodes, entry)) + later, scan, c.scanDepth)
            == ScanOver(c.nodes, EligibleIn(c.nodes, Chain(c.nodes, n.next)) + later,
                        if Eligible(n) then Met(scan, entry, n.lru) else scan, c.scanDepth)
  {
    assert LinkOk(c.nodes, entry);
    var tail := EligibleIn(c.nodes, Chain(c.nodes, c.nodes[entry].next));
    assert Chain(c.nodes, entry)[1..] == Chain(c.nodes, c.nodes[entry].next);
    if Eligible(c.nodes[entry]) {
      assert (([entry] + tail) + later)[1..] == tail + later;
    } else {
      assert ([] + tail) + later == tail + later;
    }
  }

  /** In the buckets below `b`, and in bucket `b` above node `entry`, matching nodes have been dropped. */
  ghost predicate Dropping(c: Cache, nodes: seq<Node>, rip: Word, b: nat, entry: int) {
    && |nodes| == |c.nodes|
    && forall i :: 0 <= i < |nodes| ==>
         nodes[i] == if Hash(c.nodes[i].key) < b || (Hash(c.nodes[i].key) == b && i > entry)
                     then Dropped(c.nodes[i], rip) else c.nodes[i]
  }

  lemma DropStart(c: Cache, nodes: seq<Node>, rip: Word, b: nat)
    requires Inv(c) && b < BUCKETS && Dropping(c, nodes, rip, b, |nodes|)
    ensures NIL <= c.buckets[b] < |nodes| && (c.buckets[b] != NIL ==> HashesTo(c.nodes, c.buckets[b], b))
    ensures Dropping(c, nodes, rip, b, c.buckets[b])
  {
    assert BucketOk(c, b);
    assert forall i :: 0 <= i < |nodes| && Hash(c.nodes[i].key) == b ==> HashesTo(c.nodes, i, b);
  }

  lemma DropStep(c: Cache, nodes: seq<Node>, rip: Word, b: nat, entry: nat)
    requires Inv(c) && entry < |nodes| && Dropping(c, nodes, rip, b, entry) && HashesTo(c.nodes, entry, b)
    ensures nodes[entry] == c.nodes[entry]
    ensures var next := c.nodes[entry].next;
            && NIL <= next < entry && (next != NIL ==> HashesTo(c.nodes, next, b))
            && Dropping(c, nodes[entry := Dropped(c.nodes[entry], rip)], rip, b, next)
  {
    assert LinkOk(c.nodes, entry);
    assert forall i :: 0 <= i < |nodes| && Hash(c.nodes[i].key) == b ==> HashesTo(c.nodes, i, b);
  }

  lemma DropEnd(c: Cache, nodes: seq<Node>, rip: Word, b: nat)
    requires Dropping(c, nodes, rip, b, NIL)
    ensures Dropping(c, nodes, rip, b + 1, |nodes|)
  {
  }
}

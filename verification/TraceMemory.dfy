/**
 * The trace cache as it lies in memory: one region of 64-bit words that holds the header, the arena of
 * nodes and, at its end, the bucket table. The arena's own bound is the end of the region, so the arena
 * runs into the table before it runs out.
 */
module TraceMemory {
  import opened Words
  import opened TraceCache

  /** Sizes in words: the header, one node, and the table of one word a bucket. */
  const HEADER := 7
  const NODE := 8

  /** A pointer that is neither null nor the address of a node written so far. */
  const WILD := -2

  /** A region of `size` words from address `base` on. */
  datatype Layout = Layout(base: nat, size: nat)

  /** The region is aligned, holds the header and the table, and lies below 2^64. */
  predicate LayoutOk(l: Layout) {
    l.base % 8 == 0 && HEADER + BUCKETS <= l.size && l.base + 8 * l.size <= W64 && Clear(l) + 1 < W32
  }

  /** First word of the bucket table. */
  function Table(l: Layout): int { l.size - BUCKETS }

  /** How many slots end below the table. */
  function Clear(l: Layout): int { (Table(l) - HEADER) / NODE }

  /** How many slots end below the bound the allocator compares with, the end of the region. */
  function Slots(l: Layout): int { (l.size - HEADER) / NODE }

  /** First word of a slot. */
  function At(i: nat): nat { HEADER + NODE * i }

  function Address(l: Layout, i: nat): Word
    requires LayoutOk(l) && i < Slots(l)
  {
    l.base + 8 * At(i)
  }

  /** The slot a pointer leads to, among the first `n`. */
  function Pointee(l: Layout, p: Word, n: nat): (i: int)
    ensures i == NIL || i == WILD || 0 <= i < n
  {
    var off := p - l.base - 8 * HEADER;
    if p == 0 then NIL else if off >= 0 && off % 64 == 0 && off / 64 < n then off / 64 else WILD
  }

  type Mem = seq<Word>

  function Pack(low: Word32, high: Word32): Word { low + W32 * high }

  function Low(w: Word): Word32 { w % W32 }

  function High(w: Word): Word32 { w / W32 }

  /** The byte that holds the valid flag, the lowest of its word. */
  function FlagByte(w: Word): Byte { w % 256 }

  function NodeAt(l: Layout, m: Mem, n: nat, i: nat): Node
    requires At(i) + NODE <= |m|
  {
    var a := At(i);
    Node(Key(m[a], m[a + 1]), m[a + 2], Low(m[a + 3]), High(m[a + 3]),
         Low(m[a + 4]), High(m[a + 4]), Low(m[a + 5]), High(m[a + 5]), FlagByte(m[a + 6]) != 0, Pointee(l, m[a + 7], n))
  }

  /** The region and the header fields. `used` slots have been written. */
  datatype Region = Region(
    l: Layout, words: Mem, nextAlloc: nat, used: nat, entryCount: nat, clock: Word, scanDepth: Word32)

  predicate RegionOk(r: Region) {
    LayoutOk(r.l) && |r.words| == r.l.size && r.nextAlloc <= r.used <= Slots(r.l)
  }

  lemma SlotInside(l: Layout, i: nat)
    requires LayoutOk(l) && i < Slots(l)
    ensures At(i) + NODE <= l.size
    ensures i < Clear(l) <==> At(i) + NODE <= Table(l)
    ensures 0 <= Clear(l) < Slots(l)
  {
  }

  function ViewNodes(l: Layout, m: Mem, n: nat): (s: seq<Node>)
    requires LayoutOk(l) && |m| == l.size && n <= Slots(l)
    ensures |s| == n && forall i :: 0 <= i < n ==> At(i) + NODE <= |m| && s[i] == NodeAt(l, m, n, i)
  {
    assert forall i :: 0 <= i < n ==> At(i) + NODE <= |m|;
    seq(n, i requires 0 <= i < n => NodeAt(l, m, n, i))
  }

  function ViewBuckets(l: Layout, m: Mem, n: nat): (s: seq<int>)
    requires LayoutOk(l) && |m| == l.size
    ensures |s| == BUCKETS && forall b :: 0 <= b < BUCKETS ==> s[b] == Pointee(l, m[Table(l) + b], n)
  {
    seq(BUCKETS, b requires 0 <= b < BUCKETS => Pointee(l, m[Table(l) + b], n))
  }

  /** What a reader of the region finds. */
  function View(r: Region): (c: Cache)
    requires RegionOk(r)
    ensures |c.buckets| == BUCKETS && |c.nodes| == r.used
  {
    Cache(ViewBuckets(r.l, r.words, r.used), ViewNodes(r.l, r.words, r.used), r.nextAlloc, Clear(r.l),
          r.entryCount, r.clock, r.scanDepth)
  }

  /** No node has touched the table, and the reader finds a well-formed cache. */
  predicate Intact(r: Region) { RegionOk(r) && r.used == r.nextAlloc <= Clear(r.l) && Inv(View(r)) }

  // ---- pointers ------------------------------------------------------------

  lemma PointeeOfAddress(l: Layout, i: nat, n: nat)
    requires LayoutOk(l) && i < Slots(l)
    ensures Address(l, i) != 0 && Address(l, i) % 8 == 0
    ensures Pointee(l, Address(l, i), n) == if i < n then i else WILD
  {
    var off := Address(l, i) - l.base - 8 * HEADER;
    assert off == 64 * i;
  }

  lemma OddNotMultiple(x: int)
    requires x % 2 == 1
    ensures x % 64 != 0
  {
    assert x == 64 * (x / 64) + x % 64;
  }

  lemma OddForm(x: int, j: int)
    requires x == 2 * j + 1
    ensures x % 2 == 1
  {
  }

  lemma OddOffset(p: Word, base: nat)
    requires p % 2 == 1 && base % 8 == 0
    ensures (p - base - 8 * HEADER) % 2 == 1
  {
    OddForm(p - base - 8 * HEADER, p / 2 - 4 * (base / 8) - 28);
  }

  /** An odd word is no pointer. */
  lemma OddIsWild(l: Layout, p: Word, n: nat)
    requires l.base % 8 == 0 && p % 2 == 1
    ensures Pointee(l, p, n) == WILD
  {
    OddOffset(p, l.base);
    OddNotMultiple(p - l.base - 8 * HEADER);
  }

  lemma PointeeOfMore(l: Layout, p: Word, n: nat, k: nat)
    requires Pointee(l, p, n) != WILD && n <= k
    ensures Pointee(l, p, k) == Pointee(l, p, n)
  {
  }

  // ---- changing one node ---------------------------------------------------

  /** The region after storing a word in the middle of a slot. */
  function Stored(r: Region, i: nat, o: nat, w: Word): (d: Region)
    requires RegionOk(r) && i < r.used && o < NODE
    ensures RegionOk(d)
  {
    SlotInside(r.l, i);
    r.(words := r.words[At(i) + o := w])
  }

  /** The eight words from `a` on are the same. */
  predicate SameSlot(m: Mem, d: Mem, a: nat)
    requires a + NODE <= |m| == |d|
  {
    forall k :: a <= k < a + NODE ==> d[k] == m[k]
  }

  lemma SameNode(l: Layout, m: Mem, d: Mem, n: nat, k: nat, i: nat)
    requires At(i) + NODE <= |m| == |d| && SameSlot(m, d, At(i)) && n <= k
    requires n == k || Pointee(l, m[At(i) + 7], n) != WILD
    ensures NodeAt(l, d, k, i) == NodeAt(l, m, n, i)
  {
    var a := At(i);
    assert d[a] == m[a] && d[a + 1] == m[a + 1] && d[a + 2] == m[a + 2] && d[a + 3] == m[a + 3];
    assert d[a + 4] == m[a + 4] && d[a + 5] == m[a + 5] && d[a + 6] == m[a + 6] && d[a + 7] == m[a + 7];
  }

  lemma StoredElsewhere(r: Region, i: nat, o: nat, w: Word, j: nat)
    requires RegionOk(r) && i < r.used <= Clear(r.l) && o < NODE && j < r.used && j != i
    ensures View(Stored(r, i, o, w)).nodes[j] == View(r).nodes[j]
  {
    SlotInside(r.l, j);
    SameNode(r.l, r.words, Stored(r, i, o, w).words, r.used, r.used, j);
  }

  lemma StoredBuckets(r: Region, i: nat, o: nat, w: Word)
    requires RegionOk(r) && i < r.used <= Clear(r.l) && o < NODE
    ensures View(Stored(r, i, o, w)).buckets == View(r).buckets
  {
    SlotInside(r.l, i);
  }

  /** In a slot clear of the table, storing a word changes that node only. */
  lemma StoredView(r: Region, i: nat, o: nat, w: Word)
    requires RegionOk(r) && i < r.used <= Clear(r.l) && o < NODE
    ensures View(Stored(r, i, o, w)) == View(r).(nodes := View(r).nodes[i := View(Stored(r, i, o, w)).nodes[i]])
  {
    var d := View(Stored(r, i, o, w));
    StoredBuckets(r, i, o, w);
    forall j | 0 <= j < r.used && j != i ensures d.nodes[j] == View(r).nodes[j] {
      StoredElsewhere(r, i, o, w, j);
    }
    assert d.nodes == View(r).nodes[i := d.nodes[i]];
  }

  /** Writes the execution and pin counts of a node. */
  function WithCounts(r: Region, i: nat, count: Word32, pins: Word32): (d: Region)
    requires RegionOk(r) && i < r.used
    ensures RegionOk(d)
  {
    Stored(r, i, 4, Pack(count, pins))
  }

  function WithStamp(r: Region, i: nat, hint: Word32, lru: Word32): (d: Region)
    requires RegionOk(r) && i < r.used
    ensures RegionOk(d)
  {
    Stored(r, i, 5, Pack(hint, lru))
  }

  /** Clears the valid byte and leaves the padding beside it. */
  function WithoutValid(r: Region, i: nat): (d: Region)
    requires RegionOk(r) && i < r.used
    ensures RegionOk(d)
  {
    SlotInside(r.l, i);
    var w := r.words[At(i) + 6];
    Stored(r, i, 6, w - FlagByte(w))
  }

  lemma PackParts(low: Word32, high: Word32)
    ensures Low(Pack(low, high)) == low && High(Pack(low, high)) == high
  {
  }

  lemma CountsView(r: Region, i: nat, count: Word32, pins: Word32)
    requires RegionOk(r) && i < r.used <= Clear(r.l)
    ensures View(WithCounts(r, i, count, pins))
            == View(r).(nodes := View(r).nodes[i := View(r).nodes[i].(executionCount := count, pinCount := pins)])
  {
    StoredView(r, i, 4, Pack(count, pins));
    PackParts(count, pins);
    SlotInside(r.l, i);
  }

  lemma StampView(r: Region, i: nat, hint: Word32, lru: Word32)
    requires RegionOk(r) && i < r.used <= Clear(r.l)
    ensures View(WithStamp(r, i, hint, lru))
            == View(r).(nodes := View(r).nodes[i := View(r).nodes[i].(hint := hint, lru := lru)])
  {
    StoredView(r, i, 5, Pack(hint, lru));
    PackParts(hint, lru);
    SlotInside(r.l, i);
  }

  lemma FlagCleared(w: Word)
    ensures FlagByte(w - FlagByte(w)) == 0
    ensures w - FlagByte(w) + 1 < W64 && FlagByte(w - FlagByte(w) + 1) == 1
  {
  }

  lemma InvalidNode(l: Layout, m: Mem, n: nat, i: nat, w: Word)
    requires At(i) + NODE <= |m| && FlagByte(w) == 0
    ensures NodeAt(l, m[At(i) + 6 := w], n, i) == NodeAt(l, m, n, i).(valid := false)
  {
  }

  lemma InvalidView(r: Region, i: nat)
    requires RegionOk(r) && i < r.used <= Clear(r.l)
    ensures View(WithoutValid(r, i)) == View(r).(nodes := View(r).nodes[i := View(r).nodes[i].(valid := false)])
  {
    SlotInside(r.l, i);
    var w := r.words[At(i) + 6];
    FlagCleared(w);
    StoredView(r, i, 6, w - FlagByte(w));
    InvalidNode(r.l, r.words, r.used, i, w - FlagByte(w));
  }

  // ---- linking a new node --------------------------------------------------

  /** The slot the allocator takes: the next one, or slot 0 again if that would end beyond the region. */
  function NextSlot(r: Region): (s: nat)
    requires RegionOk(r)
    ensures s < Slots(r.l)
  {
    SlotInside(r.l, 0);
    if r.nextAlloc + 1 > Slots(r.l) then 0 else r.nextAlloc
  }

  /** The fields of a new node up to its valid byte, in a slot that starts at word `a`. */
  function Filled(m: Mem, a: nat, key: Key, lru: Word32): (d: Mem)
    requires a + NODE <= |m|
    ensures |d| == |m|
  {
    m[a := key.rip][a + 1 := key.context][a + 2 := 0][a + 3 := 0][a + 4 := Pack(1, 0)]
     [a + 5 := Pack(0, lru)][a + 6 := m[a + 6] - FlagByte(m[a + 6]) + 1]
  }

  /** Then the link takes the bucket's word, as it is by now, and the bucket the node's address. */
  function Linked2(l: Layout, m: Mem, s: nat, h: nat): (d: Mem)
    requires LayoutOk(l) && |m| == l.size && s < Slots(l) && h < BUCKETS
    ensures |d| == |m|
  {
    SlotInside(l, s);
    m[At(s) + 7 := m[Table(l) + h]][Table(l) + h := Address(l, s)]
  }

  function LinkNew(r: Region, key: Key): (d: Region)
    requires RegionOk(r)
    ensures RegionOk(d)
  {
    var s := NextSlot(r);
    SlotInside(r.l, s);
    var filled := Filled(r.words, At(s), key, r.clock % W32);
    r.(words := Linked2(r.l, filled, s, Hash(key)), nextAlloc := s + 1,
       used := if s + 1 > r.used then s + 1 else r.used,
       clock := AddW(r.clock, 1), entryCount := (r.entryCount + 1) % W32)
  }

  lemma LinkNewIs(r: Region, key: Key, s: nat, m: Mem)
    requires RegionOk(r) && s == NextSlot(r) && At(s) + NODE <= |r.words|
    requires m == Linked2(r.l, Filled(r.words, At(s), key, r.clock % W32), s, Hash(key))
    ensures LinkNew(r, key) == Region(r.l, m, s + 1, if s + 1 > r.used then s + 1 else r.used,
                                      (r.entryCount + 1) % W32, AddW(r.clock, 1), r.scanDepth)
  {
  }

  /** In a state with an intact table the bound the allocator compares with is never reached: some node
    * touches the table first. */
  lemma WrapComesLate(r: Region)
    requires Intact(r)
    ensures r.nextAlloc + 1 <= Slots(r.l) && NextSlot(r) == r.nextAlloc
  {
    SlotInside(r.l, 0);
  }

  lemma FilledNode(l: Layout, m: Mem, s: nat, h: nat, key: Key, lru: Word32, n: nat)
    requires LayoutOk(l) && |m| == l.size && s < Clear(l) && s < Slots(l) && h < BUCKETS
    ensures At(s) + NODE <= l.size
    ensures var d := Linked2(l, Filled(m, At(s), key, lru), s, h);
            NodeAt(l, d, n, s) == Node(key, 0, 0, 0, 1, 0, 0, lru, true, Pointee(l, m[Table(l) + h], n))
  {
    SlotInside(l, s);
    PackParts(1, 0);
    PackParts(0, lru);
    FlagCleared(m[At(s) + 6]);
  }

  /** A slot clear of the table: only the node's own words and one bucket change. */
  lemma LinkTouches(l: Layout, m: Mem, s: nat, h: nat, key: Key, lru: Word32, k: nat)
    requires LayoutOk(l) && |m| == l.size && s < Clear(l) && s < Slots(l) && h < BUCKETS && k < |m|
    ensures At(s) + NODE <= l.size
    ensures k < At(s) || At(s) + NODE <= k ==>
              Linked2(l, Filled(m, At(s), key, lru), s, h)[k] == if k == Table(l) + h then Address(l, s) else m[k]
  {
    SlotInside(l, s);
  }

  lemma LinkNode(r: Region, key: Key, i: nat)
    requires Intact(r) && r.nextAlloc < Clear(r.l) && i < r.used
    ensures View(LinkNew(r, key)).nodes[i] == View(r).nodes[i]
  {
    var s, d := r.nextAlloc, LinkNew(r, key);
    WrapComesLate(r);
    SlotInside(r.l, i);
    SlotInside(r.l, s);
    forall k | At(i) <= k < At(i) + NODE ensures d.words[k] == r.words[k] {
      LinkTouches(r.l, r.words, s, Hash(key), key, r.clock % W32, k);
    }
    assert LinkOk(View(r).nodes, i);
    SameNode(r.l, r.words, d.words, s, s + 1, i);
  }

  lemma LinkBucketWord(r: Region, key: Key, b: nat)
    requires RegionOk(r) && r.nextAlloc < Clear(r.l) && b < BUCKETS
    ensures NextSlot(r) == r.nextAlloc
    ensures r.used == r.nextAlloc ==> LinkNew(r, key).used == r.nextAlloc + 1
    ensures LinkNew(r, key).words[Table(r.l) + b]
            == if b == Hash(key) then Address(r.l, r.nextAlloc) else r.words[Table(r.l) + b]
  {
    SlotInside(r.l, r.nextAlloc);
    LinkTouches(r.l, r.words, r.nextAlloc, Hash(key), key, r.clock % W32, Table(r.l) + b);
  }

  lemma LinkBucket(r: Region, key: Key, b: nat)
    requires Intact(r) && r.nextAlloc < Clear(r.l) && b < BUCKETS
    ensures View(LinkNew(r, key)).buckets[b] == if b == Hash(key) then r.nextAlloc else View(r).buckets[b]
  {
    var s := r.nextAlloc;
    LinkBucketWord(r, key, b);
    BucketView(LinkNew(r, key), b);
    if b == Hash(key) {
      PointeeOfAddress(r.l, s, s + 1);
    } else {
      KnownPointer(r, b);
    }
  }

  lemma BucketView(r: Region, b: nat)
    requires RegionOk(r) && b < BUCKETS
    ensures View(r).buckets[b] == Pointee(r.l, r.words[Table(r.l) + b], r.used)
  {
  }

  lemma NodeView(r: Region, i: nat)
    requires RegionOk(r) && i < r.used
    ensures At(i) + NODE <= |r.words| && View(r).nodes[i] == NodeAt(r.l, r.words, r.used, i)
  {
  }

  /** One more slot changes nothing for the bucket words of an intact region. */
  lemma KnownPointer(r: Region, b: nat)
    requires Intact(r) && b < BUCKETS
    ensures Pointee(r.l, r.words[Table(r.l) + b], r.used + 1) == View(r).buckets[b]
  {
    assert BucketOk(View(r), b);
    PointeeOfMore(r.l, r.words[Table(r.l) + b], r.used, r.used + 1);
  }

  lemma LinkNewest(r: Region, key: Key)
    requires Intact(r) && r.nextAlloc < Clear(r.l)
    ensures |View(LinkNew(r, key)).nodes| == r.nextAlloc + 1
    ensures View(LinkNew(r, key)).nodes[r.nextAlloc] == NewNode(key, r.clock, View(r).buckets[Hash(key)])
  {
    var s, h := r.nextAlloc, Hash(key);
    WrapComesLate(r);
    SlotInside(r.l, s);
    FilledNode(r.l, r.words, s, h, key, r.clock % W32, s + 1);
    KnownPointer(r, h);
  }

  /** Linking in a slot that ends below the table is the abstract insertion of a new node. */
  lemma LinkClear(r: Region, key: Key)
    requires Intact(r) && r.nextAlloc < Clear(r.l)
    ensures View(LinkNew(r, key)) == Pushed(View(r), key)
  {
    WrapComesLate(r);
    LinkNewest(r, key);
    var v := View(LinkNew(r, key));
    forall i | 0 <= i < r.used ensures v.nodes[i] == View(r).nodes[i] {
      LinkNode(r, key, i);
    }
    forall b | 0 <= b < BUCKETS ensures v.buckets[b] == View(r).buckets[Hash(key) := r.nextAlloc][b] {
      LinkBucket(r, key, b);
    }
    assert v.nodes == View(r).nodes + [NewNode(key, r.clock, View(r).buckets[Hash(key)])];
    assert v.buckets == View(r).buckets[Hash(key) := r.nextAlloc];
  }

  // ---- insertion -----------------------------------------------------------

  /** Eviction at the entry limit. */
  function MakeRoom(r: Region): (d: Region)
    requires Intact(r)
    ensures RegionOk(d) && d.nextAlloc == r.nextAlloc && d.used == r.used && d.l == r.l && d.clock == r.clock
  {
    var v := Victim(View(r));
    if r.entryCount < MAX_ENTRIES || !(0 <= v < r.used) then r
    else WithoutValid(r, v).(entryCount := AfterEviction(r.entryCount))
  }

  lemma CountedView(r: Region, n: nat)
    requires RegionOk(r)
    ensures View(r.(entryCount := n)) == View(r).(entryCount := n)
  {
  }

  lemma EvictedView(r: Region, v: nat)
    requires Intact(r) && v == Victim(View(r)) && v < r.used
    ensures View(WithoutValid(r, v).(entryCount := AfterEviction(r.entryCount))) == Evicted(View(r))
  {
    InvalidView(r, v);
    CountedView(WithoutValid(r, v), AfterEviction(r.entryCount));
  }

  lemma MakeRoomView(r: Region)
    requires Intact(r)
    ensures View(MakeRoom(r)) == WithRoom(View(r))
  {
    var v := Victim(View(r));
    if r.entryCount < MAX_ENTRIES || !(0 <= v < r.used) {
      assert MakeRoom(r) == r;
    } else {
      EvictedView(r, v);
      assert WithRoom(View(r)) == Evicted(View(r));
    }
  }

  /** The whole insertion, wherever the next slot lies. */
  function InsertInto(r: Region, key: Key): (p: (int, Region))
    requires Intact(r)
    ensures RegionOk(p.1)
  {
    var i := Locate(View(r), key);
    if i != NIL then
      (i, WithStamp(r, i, View(r).nodes[i].hint, r.clock % W32).(clock := AddW(r.clock, 1)))
    else (NextSlot(MakeRoom(r)), LinkNew(MakeRoom(r), key))
  }
}

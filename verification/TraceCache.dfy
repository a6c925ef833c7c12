/**
 * The translation trace cache as a value, while its bucket table is intact: a bump arena of nodes, hash
 * buckets that hold the index of a chain's first node, and chains through the nodes' `next` index. A null
 * pointer is NIL. Module TraceMemory says how all this lies in one region of memory.
 */
module TraceCache {
  import opened Words

  const BUCKETS := 65536
  const MAX_ENTRIES := 131072
  const NIL := -1

  datatype Key = Key(rip: Word, context: Word)

  datatype Node = Node(
    key: Key, translatedAddr: Word, microOpCount: Word32, instructionCount: Word32,
    executionCount: Word32, pinCount: Word32, hint: Word32, lru: Word32, valid: bool, next: int)

  /** `nodes` are the arena slots written so far; `nextAlloc` is the slot the next insertion uses and
    * `capacity` the number of slots that end below the bucket table. */
  datatype Cache = Cache(
    buckets: seq<int>, nodes: seq<Node>, nextAlloc: nat, capacity: nat,
    entryCount: nat, clock: Word, scanDepth: Word32)

  function Hash(key: Key): (h: nat)
    ensures h < BUCKETS
  {
    var h0 := XorW(key.rip, Low64(128 * key.context));
    var h1 := XorW(h0, h0 / W32);
    var h2 := XorW(h1, h1 / W16);
    h2 % W16
  }

  // ---- structure -----------------------------------------------------------

  predicate HashesTo(nodes: seq<Node>, j: nat, h: nat)
    requires j < |nodes|
  {
    Hash(nodes[j].key) == h
  }

  /** `i` is the youngest node below `bound` whose key hashes to `h`, or NIL if there is none. */
  predicate Youngest(nodes: seq<Node>, h: nat, bound: nat, i: int)
    requires bound <= |nodes|
  {
    && NIL <= i < bound
    && (i >= 0 ==> HashesTo(nodes, i, h))
    && (forall j :: 0 <= j < bound && HashesTo(nodes, j, h) ==> j <= i)
  }

  /** The link of node `i` leads to the next older node of the same bucket. */
  predicate LinkOk(nodes: seq<Node>, i: nat)
    requires i < |nodes|
  {
    Youngest(nodes, Hash(nodes[i].key), i, nodes[i].next)
  }

  predicate Linked(nodes: seq<Node>) { forall i :: 0 <= i < |nodes| ==> LinkOk(nodes, i) }

  predicate BucketOk(c: Cache, b: nat)
    requires b < |c.buckets|
  {
    Youngest(c.nodes, b, |c.nodes|, c.buckets[b])
  }

  predicate Structure(c: Cache) {
    && |c.buckets| == BUCKETS
    && |c.nodes| == c.nextAlloc <= c.capacity < W32
    && Linked(c.nodes)
    && (forall b :: 0 <= b < BUCKETS ==> BucketOk(c, b))
  }

  /** If node `i` is valid, no other valid node has its key. */
  predicate Sole(nodes: seq<Node>, i: nat)
    requires i < |nodes|
  {
    nodes[i].valid ==> forall j :: 0 <= j < |nodes| && Matches(nodes[j], nodes[i].key) ==> j == i
  }

  predicate OneValidPerKey(nodes: seq<Node>) { forall i :: 0 <= i < |nodes| ==> Sole(nodes, i) }

  predicate Inv(c: Cache) {
    Structure(c) && OneValidPerKey(c.nodes) && CountValid(c.nodes) <= c.entryCount <= |c.nodes|
  }

  function Empty(capacity: nat, scanDepth: Word32): Cache {
    Cache(seq(BUCKETS, _ => NIL), [], 0, capacity, 0, 0, scanDepth)
  }

  function CountValid(nodes: seq<Node>): nat {
    if nodes == [] then 0
    else CountValid(nodes[..|nodes| - 1]) + (if nodes[|nodes| - 1].valid then 1 else 0)
  }

  /** The nodes reached from `i` by following links. */
  function Chain(nodes: seq<Node>, i: int): (s: seq<nat>)
    requires Linked(nodes) && NIL <= i < |nodes|
    ensures forall k :: 0 <= k < |s| ==> s[k] <= i
    decreases i
  {
    if i == NIL then []
    else
      assert LinkOk(nodes, i);
      [i] + Chain(nodes, nodes[i].next)
  }

  /** A chain ends, visits no node twice, and holds exactly the nodes of its bucket. */
  lemma {:induction false} ChainHolds(nodes: seq<Node>, h: nat, bound: nat, i: int)
    requires Linked(nodes) && bound <= |nodes| && Youngest(nodes, h, bound, i)
    ensures forall j :: 0 <= j < bound ==> (j in Chain(nodes, i) <==> HashesTo(nodes, j, h))
    ensures forall j, k :: 0 <= j < k < |Chain(nodes, i)| ==> Chain(nodes, i)[j] > Chain(nodes, i)[k]
    decreases i
  {
    if i >= 0 {
      var next := nodes[i].next;
      assert LinkOk(nodes, i);
      ChainHolds(nodes, h, i, next);
    }
  }

  // ---- lookup --------------------------------------------------------------

  predicate Matches(n: Node, key: Key) { n.key == key && n.valid }

  /** The walk that TraceCacheLookup and TraceCacheInsert make along a chain. */
  function Find(nodes: seq<Node>, i: int, key: Key): (r: int)
    requires Linked(nodes) && NIL <= i < |nodes|
    ensures NIL <= r < |nodes| && (r >= 0 ==> Matches(nodes[r], key))
    decreases i
  {
    if i == NIL then NIL
    else if Matches(nodes[i], key) then i
    else
      assert LinkOk(nodes, i);
      Find(nodes, nodes[i].next, key)
  }

  lemma {:induction false} FindsFrom(nodes: seq<Node>, key: Key, bound: nat, i: int)
    requires Linked(nodes) && bound <= |nodes| && Youngest(nodes, Hash(key), bound, i)
    ensures Find(nodes, i, key) == NIL ==> forall j :: 0 <= j < bound ==> !Matches(nodes[j], key)
    decreases i
  {
    if i >= 0 && !Matches(nodes[i], key) {
      assert LinkOk(nodes, i);
      FindsFrom(nodes, key, i, nodes[i].next);
    }
    forall j | 0 <= j < bound && Matches(nodes[j], key) ensures j <= i {
      assert HashesTo(nodes, j, Hash(key));
    }
  }

  /** The cache as a plain map from keys to arena slots. */
  ghost function AsMap(c: Cache): (m: map<Key, nat>)
    requires Inv(c)
  {
    map key | key in (set i | 0 <= i < |c.nodes| && c.nodes[i].valid :: c.nodes[i].key) :: SlotOf(c, key)
  }

  ghost function SlotOf(c: Cache, key: Key): nat
    requires exists i :: 0 <= i < |c.nodes| && Matches(c.nodes[i], key)
  {
    var i :| 0 <= i < |c.nodes| && Matches(c.nodes[i], key); i
  }

  lemma AsMapIs(c: Cache, key: Key)
    requires Inv(c)
    ensures key in AsMap(c) <==> exists i :: 0 <= i < |c.nodes| && Matches(c.nodes[i], key)
    ensures forall i :: 0 <= i < |c.nodes| && Matches(c.nodes[i], key) ==> key in AsMap(c) && AsMap(c)[key] == i
    ensures key in AsMap(c) ==> AsMap(c)[key] < |c.nodes| && Matches(c.nodes[AsMap(c)[key]], key)
  {
    forall i | 0 <= i < |c.nodes| && Matches(c.nodes[i], key)
      ensures key in AsMap(c) && AsMap(c)[key] == i
    {
      assert Matches(c.nodes[SlotOf(c, key)], key);
      assert Sole(c.nodes, i);
    }
  }

  function Locate(c: Cache, key: Key): int
    requires Inv(c)
  {
    assert BucketOk(c, Hash(key));
    Find(c.nodes, c.buckets[Hash(key)], key)
  }

  /** The chain walk finds a node exactly when the map has the key, and then the map's node. */
  lemma LocateIsMapLookup(c: Cache, key: Key)
    requires Inv(c)
    ensures Locate(c, key) == if key in AsMap(c) then AsMap(c)[key] else NIL
  {
    AsMapIs(c, key);
    assert BucketOk(c, Hash(key));
    FindsFrom(c.nodes, key, |c.nodes|, c.buckets[Hash(key)]);
  }

  // ---- operations ----------------------------------------------------------

  /** Stamps a node with the clock and advances it. */
  function Touched(n: Node, clock: Word): Node { n.(lru := clock % W32) }

  function Advance(c: Cache): Cache { c.(clock := AddW(c.clock, 1)) }

  function Hit(n: Node, clock: Word): Node {
    var count := (n.executionCount + 1) % W32;
    Touched(n, clock).(executionCount := count,
                       hint := if count > 100 && n.hint % 2 == 0 then n.hint + 1 else n.hint)
  }

  function Lookup(c: Cache, key: Key): (int, Cache)
    requires Inv(c)
  {
    var i := Locate(c, key);
    if i == NIL then (NIL, c)
    else (i, Advance(c.(nodes := c.nodes[i := Hit(c.nodes[i], c.clock)])))
  }

  function NewNode(key: Key, clock: Word, next: int): Node {
    Node(key, 0, 0, 0, 1, 0, 0, clock % W32, true, next)
  }

  predicate Eligible(n: Node) { n.valid && n.pinCount == 0 }

  predicate EligibleAt(nodes: seq<Node>, i: nat) { i < |nodes| && Eligible(nodes[i]) }

  function EligibleIn(nodes: seq<Node>, s: seq<nat>): seq<nat> {
    if s == [] then [] else (if EligibleAt(nodes, s[0]) then [s[0]] else []) + EligibleIn(nodes, s[1..])
  }

  function ChainOf(c: Cache, b: nat): seq<nat>
    requires Inv(c) && b < BUCKETS
  {
    assert BucketOk(c, b);
    Chain(c.nodes, c.buckets[b])
  }

  function NextBucket(b: nat): nat
    requires b < BUCKETS
  {
    if b + 1 == BUCKETS then 0 else b + 1
  }

  /** Valid unpinned nodes of `n` buckets in ring order from bucket `b`, chain by chain. */
  function Ring(c: Cache, b: nat, n: nat): seq<nat>
    requires Inv(c) && b < BUCKETS
    decreases n
  {
    if n == 0 then [] else EligibleIn(c.nodes, ChainOf(c, b)) + Ring(c, NextBucket(b), n - 1)
  }

  function Take(s: seq<nat>, n: nat): seq<nat> { if |s| <= n then s else s[..n] }

  /** The nodes the eviction scan looks at: the first `scanDepth` of the ring. */
  function Scanned(c: Cache): seq<nat>
    requires Inv(c)
  {
    Take(Ring(c, c.clock % BUCKETS, |c.buckets|), c.scanDepth)
  }

  function LruOf(nodes: seq<Node>, i: nat): nat { if i < |nodes| then nodes[i].lru else 0 }

  /** Candidates counted, best candidate so far and its counter. */
  datatype Scan = Scan(scanned: nat, victim: int, minLru: int)

  const START := Scan(0, NIL, W64 - 1)

  function Met(scan: Scan, entry: nat, lru: nat): Scan {
    if lru < scan.minLru then Scan(scan.scanned + 1, entry, lru) else scan.(scanned := scan.scanned + 1)
  }

  /** The scan over the candidates in `rest`, which stops at the depth. */
  function ScanOver(nodes: seq<Node>, rest: seq<nat>, scan: Scan, depth: nat): Scan {
    if rest == [] || scan.scanned >= depth then scan
    else ScanOver(nodes, rest[1..], Met(scan, rest[0], LruOf(nodes, rest[0])), depth)
  }

  /** The node the scan chooses, or NIL. */
  function Victim(c: Cache): int
    requires Inv(c)
  {
    ScanOver(c.nodes, Ring(c, c.clock % BUCKETS, |c.buckets|), START, c.scanDepth).victim
  }

  function Evicted(c: Cache): Cache
    requires Inv(c)
  {
    var v := Victim(c);
    if !(0 <= v < |c.nodes|) then c
    else c.(nodes := c.nodes[v := c.nodes[v].(valid := false)], entryCount := AfterEviction(c.entryCount))
  }

  function AfterEviction(count: nat): nat { if count == 0 then W32 - 1 else count - 1 }

  /** Makes room if the entry limit is reached. */
  function WithRoom(c: Cache): Cache
    requires Inv(c)
  {
    if c.entryCount >= MAX_ENTRIES then Evicted(c) else c
  }

  /** Links a new node in front of its chain, in the next arena slot. */
  function Pushed(c: Cache, key: Key): Cache
    requires |c.buckets| == BUCKETS && |c.nodes| == c.nextAlloc < c.capacity
  {
    var b := Hash(key);
    Advance(c.(nodes := c.nodes + [NewNode(key, c.clock, c.buckets[b])],
               buckets := c.buckets[b := c.nextAlloc], nextAlloc := c.nextAlloc + 1,
               entryCount := (c.entryCount + 1) % W32))
  }

  /** The key is present, or the next slot ends below the bucket table. */
  predicate Room(c: Cache, key: Key)
    requires Inv(c)
  {
    Locate(c, key) != NIL || c.nextAlloc < c.capacity
  }

  function Insert(c: Cache, key: Key): (int, Cache)
    requires Inv(c) && Room(c, key)
  {
    var i := Locate(c, key);
    if i != NIL then (i, Advance(c.(nodes := c.nodes[i := Touched(c.nodes[i], c.clock)])))
    else (c.nextAlloc, Pushed(WithRoom(c), key))
  }

  /** Pinning and unpinning look the entry up first, which counts as a use. */
  function Pin(c: Cache, key: Key, up: bool): Cache
    requires Inv(c)
  {
    var (i, d) := Lookup(c, key);
    if i == NIL then d
    else
      var n := d.nodes[i];
      if up then d.(nodes := d.nodes[i := n.(pinCount := (n.pinCount + 1) % W32)])
      else if n.pinCount > 0 then d.(nodes := d.nodes[i := n.(pinCount := n.pinCount - 1)])
      else d
  }

  function Dropped(n: Node, rip: Word): Node {
    if n.valid && n.key.rip == rip then n.(valid := false) else n
  }

  /** Drops every entry of an instruction address, in whatever context; the entry count stays. */
  function Invalidate(c: Cache, rip: Word): Cache
    requires Inv(c)
  {
    c.(nodes := seq(|c.nodes|, i requires 0 <= i < |c.nodes| => Dropped(c.nodes[i], rip)))
  }

  function Configure(c: Cache, depth: Word32): Cache { c.(scanDepth := depth) }
}

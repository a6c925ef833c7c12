/** Runs of the trace cache below the bucket table: chains, the entry count, and recency of the stamps. */
module TraceCacheRuns {
  import opened Words
  import opened TraceCache
  import opened TraceEviction
  import opened TraceCacheMap

  datatype Op = DoLookup(key: Key) | DoInsert(key: Key) | DoPin(key: Key, up: bool)
              | DoInvalidate(rip: Word) | DoConfigure(depth: Word32)

  /** An insertion finds its key or a slot that ends below the bucket table. */
  predicate HasRoom(c: Cache, op: Op)
    requires Inv(c)
  {
    op.DoInsert? ==> Room(c, op.key)
  }

  function Apply(c: Cache, op: Op): Cache
    requires Inv(c) && HasRoom(c, op)
  {
    match op
    case DoLookup(key) => Lookup(c, key).1
    case DoInsert(key) => Insert(c, key).1
    case DoPin(key, up) => Pin(c, key, up)
    case DoInvalidate(rip) => Invalidate(c, rip)
    case DoConfigure(depth) => Configure(c, depth)
  }

  /** The valid nodes an operation drops without lowering the entry count. */
  function Uncounted(c: Cache, op: Op): nat { if op.DoInvalidate? then CountWith(c.nodes, op.rip) else 0 }

  lemma InsertKeepsInv(c: Cache, key: Key)
    requires Inv(c) && Room(c, key)
    ensures var d := Insert(c, key).1;
            && Inv(d) && d.capacity == c.capacity && c.nextAlloc <= d.nextAlloc <= c.nextAlloc + 1
            && d.entryCount - CountValid(d.nodes) == c.entryCount - CountValid(c.nodes)
  {
    InsertSpec(c, key);
    WithRoomSpec(c);
  }

  lemma ApplyKeepsInv(c: Cache, op: Op)
    requires Inv(c) && HasRoom(c, op)
    ensures var d := Apply(c, op);
            && Inv(d) && d.capacity == c.capacity
            && c.nextAlloc <= d.nextAlloc <= c.nextAlloc + (if op.DoInsert? then 1 else 0)
            && d.entryCount - CountValid(d.nodes) == c.entryCount - CountValid(c.nodes) + Uncounted(c, op)
  {
    match op
    case DoLookup(key) => LookupSpec(c, key);
    case DoInsert(key) => InsertKeepsInv(c, key);
    case DoPin(key, up) => PinSpec(c, key, up);
    case DoInvalidate(rip) => InvalidateSpec(c, rip);
    case DoConfigure(depth) =>
      WeakenedStructure(c, Configure(c, depth));
  }

  /** Every insertion of the run has room. */
  ghost predicate StaysClear(c: Cache, ops: seq<Op>)
    requires Inv(c)
    decreases |ops|
  {
    ops == []
    || (HasRoom(c, ops[0]) && Inv(Apply(c, ops[0])) && StaysClear(Apply(c, ops[0]), ops[1..]))
  }

  ghost function Run(c: Cache, ops: seq<Op>): (r: Cache)
    requires Inv(c) && StaysClear(c, ops)
    ensures Inv(r)
    decreases |ops|
  {
    if ops == [] then c else Run(Apply(c, ops[0]), ops[1..])
  }

  function Insertions(ops: seq<Op>): nat {
    if ops == [] then 0 else (if ops[0].DoInsert? then 1 else 0) + Insertions(ops[1..])
  }

  /** No more insertions than slots below the table are always clear of it. */
  lemma {:induction false} FewInsertionsStayClear(c: Cache, ops: seq<Op>)
    requires Inv(c) && c.nextAlloc + Insertions(ops) <= c.capacity
    ensures StaysClear(c, ops)
    decreases |ops|
  {
    if ops != [] {
      ApplyKeepsInv(c, ops[0]);
      FewInsertionsStayClear(Apply(c, ops[0]), ops[1..]);
    }
  }

  lemma EmptyInv(capacity: nat, depth: Word32)
    requires capacity < W32
    ensures Inv(Empty(capacity, depth)) && AsMap(Empty(capacity, depth)) == map[]
  {
    var c := Empty(capacity, depth);
    forall b | 0 <= b < BUCKETS ensures BucketOk(c, b) {
    }
  }

  /** The cache as initialisation leaves it. */
  function Start(capacity: nat, depth: Word32): (c: Cache)
    requires capacity < W32
    ensures Inv(c)
  {
    EmptyInv(capacity, depth);
    Empty(capacity, depth)
  }

  // ---- the entry count -----------------------------------------------------

  /** All valid nodes that the run's invalidations drop. */
  ghost function UncountedIn(c: Cache, ops: seq<Op>): nat
    requires Inv(c) && StaysClear(c, ops)
    decreases |ops|
  {
    if ops == [] then 0 else Uncounted(c, ops[0]) + UncountedIn(Apply(c, ops[0]), ops[1..])
  }

  lemma {:induction false} RunDrift(c: Cache, ops: seq<Op>)
    requires Inv(c) && StaysClear(c, ops)
    ensures var r := Run(c, ops);
            r.entryCount - CountValid(r.nodes) == c.entryCount - CountValid(c.nodes) + UncountedIn(c, ops)
    decreases |ops|
  {
    if ops != [] {
      ApplyKeepsInv(c, ops[0]);
      RunDrift(Apply(c, ops[0]), ops[1..]);
    }
  }

  /** Over every run clear of the table the entry count exceeds the number of valid nodes by exactly the
    * nodes that invalidations dropped; so it is exact if and only if no invalidation dropped anything. */
  lemma EntryCountExact(capacity: nat, depth: Word32, ops: seq<Op>)
    requires capacity < W32 && StaysClear(Start(capacity, depth), ops)
    ensures var r, dropped := Run(Start(capacity, depth), ops), UncountedIn(Start(capacity, depth), ops);
            && r.entryCount == CountValid(r.nodes) + dropped
            && (r.entryCount == CountValid(r.nodes) <==> dropped == 0)
  {
    RunDrift(Start(capacity, depth), ops);
  }

  // ---- chains, as a reader of the memory would see them --------------------

  /** `s` lists the nodes met from link `i` until the null link. */
  predicate IsPath(nodes: seq<Node>, i: int, s: seq<nat>)
    decreases s
  {
    if s == [] then i == NIL
    else i == s[0] && s[0] < |nodes| && IsPath(nodes, nodes[s[0]].next, s[1..])
  }

  /** Following the chain of bucket `b` ends, meets no node twice, and meets exactly the nodes whose
    * key hashes to `b`. */
  ghost predicate ChainExact(c: Cache, b: nat)
    requires b < |c.buckets|
  {
    exists s :: IsPath(c.nodes, c.buckets[b], s) && NoDuplicates(s)
      && forall i :: 0 <= i < |c.nodes| ==> (i in s <==> HashesTo(c.nodes, i, b))
  }

  lemma {:induction false} ChainIsPath(nodes: seq<Node>, i: int)
    requires Linked(nodes) && NIL <= i < |nodes|
    ensures IsPath(nodes, i, Chain(nodes, i))
    decreases i
  {
    if i >= 0 {
      assert LinkOk(nodes, i);
      ChainIsPath(nodes, nodes[i].next);
    }
  }

  /** In every state with the invariant, every chain is exact. */
  lemma InvChainsExact(c: Cache, b: nat)
    requires Inv(c) && b < BUCKETS
    ensures ChainExact(c, b)
  {
    assert BucketOk(c, b);
    ChainOfHolds(c, b);
    ChainIsPath(c.nodes, c.buckets[b]);
    assert forall i :: 0 <= i < |c.nodes| ==> (i in ChainOf(c, b) <==> HashesTo(c.nodes, i, b));
  }

  /** In every state reachable clear of the table, every chain is exact and a lookup finds a node exactly
    * when the map has the key. */
  lemma ReachableAgrees(capacity: nat, depth: Word32, ops: seq<Op>, b: nat, key: Key)
    requires capacity < W32 && StaysClear(Start(capacity, depth), ops) && b < BUCKETS
    ensures var c := Run(Start(capacity, depth), ops);
            && ChainExact(c, b)
            && Lookup(c, key).0 == if key in AsMap(c) then AsMap(c)[key] else NIL
  {
    InvChainsExact(Run(Start(capacity, depth), ops), b);
    LookupSpec(Run(Start(capacity, depth), ops), key);
  }

  // ---- recency -------------------------------------------------------------

  /** The node an operation uses: the one a lookup or pin finds, or an insertion finds or links. */
  function UsedBy(c: Cache, op: Op): Option<nat>
    requires Inv(c) && HasRoom(c, op)
  {
    match op
    case DoLookup(key) => if Locate(c, key) < 0 then None else Some(Locate(c, key))
    case DoPin(key, up) => if Locate(c, key) < 0 then None else Some(Locate(c, key))
    case DoInsert(key) => if Locate(c, key) < 0 then Some(c.nextAlloc) else Some(Locate(c, key))
    case _ => None
  }

  /** Node `i`, an old one or a new one at the end, got the clock's stamp, and no other stamp changed. */
  predicate StampedBy(c: Cache, d: Cache, i: nat) {
    && c.clock < W64 - 1 && d.clock == c.clock + 1
    && |c.nodes| <= |d.nodes| && i < |d.nodes|
    && (|d.nodes| == |c.nodes| || (|d.nodes| == |c.nodes| + 1 && i == |c.nodes|))
    && d.nodes[i].lru == c.clock % W32
    && (forall j :: 0 <= j < |c.nodes| && j != i ==> d.nodes[j].lru == c.nodes[j].lru)
  }

  predicate SameStamps(c: Cache, d: Cache) {
    && d.clock == c.clock && |d.nodes| == |c.nodes|
    && (forall j :: 0 <= j < |c.nodes| ==> d.nodes[j].lru == c.nodes[j].lru)
  }

  predicate StampsFor(c: Cache, d: Cache, used: Option<nat>) {
    match used case None => SameStamps(c, d) case Some(i) => StampedBy(c, d, i)
  }

  lemma LookupStamps(c: Cache, key: Key)
    requires Inv(c) && c.clock < W64 - 1
    ensures var (i, d) := Lookup(c, key); if i < 0 then SameStamps(c, d) else StampedBy(c, d, i)
  {
    LocateIsMapLookup(c, key);
  }

  lemma PinStamps(c: Cache, key: Key, up: bool)
    requires Inv(c) && c.clock < W64 - 1
    ensures var i := Locate(c, key); if i < 0 then SameStamps(c, Pin(c, key, up)) else StampedBy(c, Pin(c, key, up), i)
  {
    LookupStamps(c, key);
    LocateIsMapLookup(c, key);
  }

  lemma EvictStamps(c: Cache)
    requires Inv(c)
    ensures SameStamps(c, WithRoom(c)) && Inv(WithRoom(c)) && WithRoom(c).nextAlloc == c.nextAlloc
    ensures WithRoom(c).capacity == c.capacity
  {
    WithRoomSpec(c);
    VictimSpec(c);
    if c.entryCount >= MAX_ENTRIES && Victim(c) != NIL {
      var v := Victim(c);
      assert WithRoom(c).nodes == c.nodes[v := c.nodes[v].(valid := false)];
    }
  }

  lemma PushStamps(c: Cache, key: Key)
    requires |c.buckets| == BUCKETS && |c.nodes| == c.nextAlloc < c.capacity && c.clock < W64 - 1
    ensures StampedBy(c, Pushed(c, key), c.nextAlloc)
  {
  }

  lemma StampedAfterSame(c: Cache, m: Cache, d: Cache, i: nat)
    requires SameStamps(c, m) && StampedBy(m, d, i)
    ensures StampedBy(c, d, i)
  {
  }

  lemma TouchStamps(c: Cache, i: nat)
    requires i < |c.nodes| && c.clock < W64 - 1
    ensures StampedBy(c, Advance(c.(nodes := c.nodes[i := Touched(c.nodes[i], c.clock)])), i)
  {
  }

  lemma InsertStamps(c: Cache, key: Key)
    requires Inv(c) && Room(c, key) && c.clock < W64 - 1
    ensures var (i, d) := Insert(c, key); i >= 0 && StampedBy(c, d, i)
  {
    LocateIsMapLookup(c, key);
    if Locate(c, key) < 0 {
      EvictStamps(c);
      PushStamps(WithRoom(c), key);
      StampedAfterSame(c, WithRoom(c), Pushed(WithRoom(c), key), c.nextAlloc);
    } else {
      AsMapIs(c, key);
      TouchStamps(c, Locate(c, key));
    }
  }

  /** Every operation stamps exactly the node it uses. */
  lemma UseIsNewest(c: Cache, op: Op)
    requires Inv(c) && HasRoom(c, op) && c.clock < W64 - 1
    ensures StampsFor(c, Apply(c, op), UsedBy(c, op))
  {
    match op
    case DoLookup(key) => LookupStamps(c, key);
    case DoInsert(key) => InsertStamps(c, key);
    case DoPin(key, up) => PinStamps(c, key, up);
    case DoInvalidate(rip) =>
    case DoConfigure(depth) =>
  }

  function Noted(uses: seq<nat>, used: Option<nat>): seq<nat> {
    match used case None => uses case Some(i) => uses + [i]
  }

  /** The nodes a run uses, in order. */
  ghost function UsesOf(c: Cache, ops: seq<Op>): seq<nat>
    requires Inv(c) && StaysClear(c, ops)
    decreases |ops|
  {
    if ops == [] then [] else Noted([], UsedBy(c, ops[0])) + UsesOf(Apply(c, ops[0]), ops[1..])
  }

  /** The position of the last use of node `i`, or -1. */
  function LastUse(uses: seq<nat>, i: nat): (p: int)
    ensures -1 <= p < |uses| && (p >= 0 ==> uses[p] == i)
    decreases |uses|
  {
    if uses == [] then -1
    else if uses[|uses| - 1] == i then |uses| - 1
    else LastUse(uses[..|uses| - 1], i)
  }

  lemma LastUseAfter(uses: seq<nat>, last: nat, i: nat)
    ensures LastUse(uses + [last], i) == if last == i then |uses| else LastUse(uses, i)
  {
    assert (uses + [last])[..|uses|] == uses;
  }

  /** The clock counts the uses, and every node's stamp is the position of its last one. */
  predicate History(c: Cache, uses: seq<nat>) {
    && c.clock == |uses| <= W32
    && (forall i :: 0 <= i < |c.nodes| ==> LastUse(uses, i) == c.nodes[i].lru)
  }

  lemma HistoryStep(c: Cache, d: Cache, uses: seq<nat>, used: Option<nat>)
    requires History(c, uses) && StampsFor(c, d, used) && |Noted(uses, used)| <= W32
    ensures History(d, Noted(uses, used))
  {
    if used.Some? {
      forall i: nat ensures LastUse(uses + [used.value], i) == if used.value == i then |uses| else LastUse(uses, i) {
        LastUseAfter(uses, used.value, i);
      }
    }
  }

  lemma OneUse(c: Cache, op: Op, uses: seq<nat>)
    requires Inv(c) && HasRoom(c, op) && History(c, uses) && |Noted(uses, UsedBy(c, op))| <= W32
    ensures History(Apply(c, op), Noted(uses, UsedBy(c, op)))
  {
    UseIsNewest(c, op);
    HistoryStep(c, Apply(c, op), uses, UsedBy(c, op));
  }

  lemma NotedAppend(uses: seq<nat>, used: Option<nat>, rest: seq<nat>)
    ensures uses + (Noted([], used) + rest) == Noted(uses, used) + rest
  {
  }

  lemma {:induction false} RunHistory(c: Cache, ops: seq<Op>, uses: seq<nat>)
    requires Inv(c) && StaysClear(c, ops) && History(c, uses) && |uses + UsesOf(c, ops)| <= W32
    ensures History(Run(c, ops), uses + UsesOf(c, ops))
    decreases |ops|
  {
    if ops == [] {
      assert uses + [] == uses;
    } else {
      NotedAppend(uses, UsedBy(c, ops[0]), UsesOf(Apply(c, ops[0]), ops[1..]));
      OneUse(c, ops[0], uses);
      RunHistory(Apply(c, ops[0]), ops[1..], Noted(uses, UsedBy(c, ops[0])));
    }
  }

  /** Over every run from the empty cache with at most 2^32 uses, each node's stamp is the position of its
    * last use, so no two nodes share one. */
  lemma StampsAreLastUses(capacity: nat, depth: Word32, ops: seq<Op>)
    requires capacity < W32 && StaysClear(Start(capacity, depth), ops)
    requires |UsesOf(Start(capacity, depth), ops)| <= W32
    ensures History(Run(Start(capacity, depth), ops), UsesOf(Start(capacity, depth), ops))
  {
    var uses := UsesOf(Start(capacity, depth), ops);
    assert [] + uses == uses;
    RunHistory(Start(capacity, depth), ops, []);
  }

  /** Over every such run, an eviction whose scan covers all eligible nodes removes the one used longest
    * ago: every other eligible node was last used strictly later. */
  lemma VictimIsLeastRecent(capacity: nat, depth: Word32, ops: seq<Op>, i: nat)
    requires capacity < W32 && StaysClear(Start(capacity, depth), ops)
    requires |UsesOf(Start(capacity, depth), ops)| <= W32
    requires var c := Run(Start(capacity, depth), ops);
             |EligibleSet(c)| <= c.scanDepth && i in EligibleSet(c) && i != Victim(c)
    ensures var c, uses := Run(Start(capacity, depth), ops), UsesOf(Start(capacity, depth), ops);
            0 <= Victim(c) < |c.nodes| && 0 <= LastUse(uses, Victim(c)) < LastUse(uses, i)
  {
    StampsAreLastUses(capacity, depth, ops);
    LeastRecentIn(Run(Start(capacity, depth), ops), UsesOf(Start(capacity, depth), ops), i);
  }

  lemma LeastRecentIn(c: Cache, uses: seq<nat>, i: nat)
    requires Inv(c) && History(c, uses)
    requires |EligibleSet(c)| <= c.scanDepth && i in EligibleSet(c) && i != Victim(c)
    ensures 0 <= Victim(c) < |c.nodes| && 0 <= LastUse(uses, Victim(c)) < LastUse(uses, i)
  {
    VictimHasLeastStamp(c, i);
    StampsDiffer(c, uses, Victim(c), i);
  }

  lemma StampsDiffer(c: Cache, uses: seq<nat>, v: nat, i: nat)
    requires History(c, uses) && v < |c.nodes| && i < |c.nodes| && v != i && c.nodes[v].lru <= c.nodes[i].lru
    ensures 0 <= LastUse(uses, v) < LastUse(uses, i)
  {
    var p, q := LastUse(uses, v), LastUse(uses, i);
    assert p == c.nodes[v].lru && q == c.nodes[i].lru;
    assert uses[p] == v && uses[q] == i;
  }

  lemma VictimHasLeastStamp(c: Cache, i: nat)
    requires Inv(c) && |EligibleSet(c)| <= c.scanDepth && i in EligibleSet(c)
    ensures 0 <= Victim(c) < |c.nodes| && i < |c.nodes| && c.nodes[Victim(c)].lru <= c.nodes[i].lru
  {
    VictimSpec(c);
    assert |EligibleSet(c) - {i}| < |EligibleSet(c)|;
    assert LruOf(c.nodes, Victim(c)) <= LruOf(c.nodes, i);
  }
}

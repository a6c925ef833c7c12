/** The trace cache agrees with a plain map from keys to nodes, operation by operation and over runs. */
module TraceCacheMap {
  import opened Words
  import opened TraceCache
  import opened TraceEviction

  // ---- counting ------------------------------------------------------------

  lemma {:induction false} CountAfterUpdate(nodes: seq<Node>, i: nat, n: Node)
    requires i < |nodes|
    ensures CountValid(nodes[i := n])
            == CountValid(nodes) - (if nodes[i].valid then 1 else 0) + (if n.valid then 1 else 0)
  {
    var last := |nodes| - 1;
    if i < last {
      CountAfterUpdate(nodes[..last], i, n);
      assert nodes[i := n][..last] == nodes[..last][i := n];
    } else {
      assert nodes[i := n][..last] == nodes[..last];
    }
  }

  lemma CountAfterAppend(nodes: seq<Node>, n: Node)
    ensures CountValid(nodes + [n]) == CountValid(nodes) + (if n.valid then 1 else 0)
  {
    assert (nodes + [n])[..|nodes|] == nodes;
  }

  // ---- keeping the structure -----------------------------------------------

  /** Same keys and links, and nothing has become valid. */
  ghost predicate Weakened(c: Cache, d: Cache) {
    && |d.nodes| == |c.nodes| && d.buckets == c.buckets && d.nextAlloc == c.nextAlloc && d.capacity == c.capacity
    && forall i :: 0 <= i < |c.nodes| ==>
         d.nodes[i].key == c.nodes[i].key && d.nodes[i].next == c.nodes[i].next
         && (d.nodes[i].valid ==> c.nodes[i].valid)
  }

  lemma WeakenedStructure(c: Cache, d: Cache)
    requires Inv(c) && Weakened(c, d)
    ensures Structure(d) && OneValidPerKey(d.nodes)
  {
    assert forall j, h :: 0 <= j < |c.nodes| ==> HashesTo(d.nodes, j, h) == HashesTo(c.nodes, j, h);
    forall i | 0 <= i < |d.nodes| ensures LinkOk(d.nodes, i) {
      assert LinkOk(c.nodes, i);
    }
    forall b | 0 <= b < BUCKETS ensures BucketOk(d, b) {
      assert BucketOk(c, b);
    }
    forall i | 0 <= i < |d.nodes| ensures Sole(d.nodes, i) {
      assert Sole(c.nodes, i);
      assert forall j :: 0 <= j < |d.nodes| && Matches(d.nodes[j], d.nodes[i].key)
               ==> Matches(c.nodes[j], d.nodes[i].key);
    }
  }

  /** Then the map is the old one restricted to the keys whose node is still valid. */
  lemma WeakenedMap(c: Cache, d: Cache, key: Key)
    requires Inv(c) && Inv(d) && Weakened(c, d)
    ensures key in AsMap(c) ==> AsMap(c)[key] < |d.nodes|
    ensures key in AsMap(d) <==> key in AsMap(c) && d.nodes[AsMap(c)[key]].valid
    ensures key in AsMap(d) ==> AsMap(d)[key] == AsMap(c)[key]
  {
    AsMapIs(c, key);
    AsMapIs(d, key);
    if key in AsMap(d) {
      assert Matches(c.nodes[AsMap(d)[key]], key);
    }
    if key in AsMap(c) && d.nodes[AsMap(c)[key]].valid {
      assert Matches(d.nodes[AsMap(c)[key]], key);
    }
  }

  lemma SameMap(c: Cache, d: Cache)
    requires Inv(c) && Inv(d) && Weakened(c, d)
    requires forall i :: 0 <= i < |c.nodes| ==> d.nodes[i].valid == c.nodes[i].valid
    ensures AsMap(d) == AsMap(c)
  {
    forall key ensures (key in AsMap(c) <==> key in AsMap(d)) && (key in AsMap(d) ==> AsMap(c)[key] == AsMap(d)[key]) {
      WeakenedMap(c, d, key);
      AsMapIs(c, key);
    }
  }

  // ---- what each operation does to the map ---------------------------------

  /** Changing one node without touching its key, validity or link keeps structure, map and count. */
  lemma NodeUpdate(c: Cache, d: Cache, i: nat, n: Node)
    requires Inv(c) && i < |c.nodes|
    requires n.key == c.nodes[i].key && n.next == c.nodes[i].next && n.valid == c.nodes[i].valid
    requires d == c.(nodes := c.nodes[i := n], clock := d.clock)
    ensures Inv(d) && AsMap(d) == AsMap(c) && CountValid(d.nodes) == CountValid(c.nodes)
  {
    CountAfterUpdate(c.nodes, i, n);
    WeakenedStructure(c, d);
    SameMap(c, d);
  }

  /** Lookup returns the map's node, or nothing exactly when the map lacks the key, and changes
    * nothing in the map; the node found carries the newest stamp. */
  lemma LookupSpec(c: Cache, key: Key)
    requires Inv(c)
    ensures var (i, d) := Lookup(c, key);
            && Inv(d) && AsMap(d) == AsMap(c) && CountValid(d.nodes) == CountValid(c.nodes)
            && i == (if key in AsMap(c) then AsMap(c)[key] else NIL)
            && (i == NIL ==> d == c)
            && (i != NIL ==> d == Advance(c.(nodes := c.nodes[i := Hit(c.nodes[i], c.clock)])))
  {
    LocateIsMapLookup(c, key);
    var (i, d) := Lookup(c, key);
    if i != NIL {
      NodeUpdate(c, d, i, Hit(c.nodes[i], c.clock));
    }
  }

  /** Pinning counts up and unpinning down to zero, for the looked-up key only. */
  lemma PinSpec(c: Cache, key: Key, up: bool)
    requires Inv(c)
    ensures var d := Pin(c, key, up);
            && Inv(d) && AsMap(d) == AsMap(c) && CountValid(d.nodes) == CountValid(c.nodes)
            && d.entryCount == c.entryCount && |d.nodes| == |c.nodes|
            && (key !in AsMap(c) ==> d == c)
            && (key in AsMap(c) ==>
                  var pins := c.nodes[AsMap(c)[key]].pinCount;
                  d.nodes[AsMap(c)[key]].pinCount
                  == if up then (pins + 1) % W32 else if pins > 0 then pins - 1 else 0)
            && forall i :: 0 <= i < |c.nodes| && !(key in AsMap(c) && i == AsMap(c)[key]) ==> d.nodes[i] == c.nodes[i]
  {
    LookupSpec(c, key);
    AsMapIs(c, key);
    var (i, d) := Lookup(c, key);
    if i != NIL {
      NodeUpdate(d, Pin(c, key, up), i, Pin(c, key, up).nodes[i]);
    }
  }

  lemma EvictNode(c: Cache, d: Cache, v: nat)
    requires Inv(c) && v < |c.nodes| && c.nodes[v].valid
    requires d == c.(nodes := c.nodes[v := c.nodes[v].(valid := false)], entryCount := AfterEviction(c.entryCount))
    ensures Inv(d) && AsMap(d) == AsMap(c) - {c.nodes[v].key}
    ensures d.entryCount - CountValid(d.nodes) == c.entryCount - CountValid(c.nodes)
  {
    CountAfterUpdate(c.nodes, v, c.nodes[v].(valid := false));
    WeakenedStructure(c, d);
    var gone := c.nodes[v].key;
    forall key ensures (key in AsMap(d) <==> key in AsMap(c) && key != gone)
                    && (key in AsMap(d) ==> AsMap(c)[key] == AsMap(d)[key]) {
      WeakenedMap(c, d, key);
      AsMapIs(c, key);
      assert key == gone ==> Matches(c.nodes[v], key);
    }
  }

  /** Eviction removes at most the victim's key. */
  lemma WithRoomSpec(c: Cache)
    requires Inv(c)
    ensures Victim(c) != NIL ==> 0 <= Victim(c) < |c.nodes|
    ensures var d := WithRoom(c);
            && Inv(d) && d.nextAlloc == c.nextAlloc && d.capacity == c.capacity && d.clock == c.clock
            && AsMap(d) == (if c.entryCount < MAX_ENTRIES || Victim(c) == NIL then AsMap(c)
                            else AsMap(c) - {c.nodes[Victim(c)].key})
            && d.entryCount - CountValid(d.nodes) == c.entryCount - CountValid(c.nodes)
  {
    VictimSpec(c);
    if c.entryCount >= MAX_ENTRIES && Victim(c) != NIL {
      EvictNode(c, WithRoom(c), Victim(c));
    }
  }

  lemma PushedStructure(c: Cache, key: Key)
    requires Inv(c) && c.nextAlloc < c.capacity
    ensures Structure(Pushed(c, key))
  {
    var d := Pushed(c, key);
    assert forall j, h :: 0 <= j < |c.nodes| ==> HashesTo(d.nodes, j, h) == HashesTo(c.nodes, j, h);
    forall i | 0 <= i < |d.nodes| ensures LinkOk(d.nodes, i) {
      if i < |c.nodes| { assert LinkOk(c.nodes, i); } else { assert BucketOk(c, Hash(key)); }
    }
    forall b | 0 <= b < BUCKETS ensures BucketOk(d, b) {
      assert BucketOk(c, b);
      assert HashesTo(d.nodes, |c.nodes|, b) <==> b == Hash(key);
    }
  }

  lemma PushedSole(c: Cache, key: Key)
    requires Inv(c) && key !in AsMap(c) && c.nextAlloc < c.capacity
    ensures OneValidPerKey(Pushed(c, key).nodes)
  {
    var d := Pushed(c, key);
    AsMapIs(c, key);
    forall i | 0 <= i < |d.nodes| ensures Sole(d.nodes, i) {
      assert forall j :: 0 <= j < |c.nodes| && Matches(d.nodes[j], d.nodes[i].key)
               ==> Matches(c.nodes[j], d.nodes[i].key);
      if i < |c.nodes| {
        assert Sole(c.nodes, i);
        assert c.nodes[i].valid ==> Matches(c.nodes[i], c.nodes[i].key);
      }
    }
  }

  /** Linking a new node with a key the map lacks, while the arena has room. */
  lemma PushedSpec(c: Cache, key: Key)
    requires Inv(c) && key !in AsMap(c) && c.nextAlloc < c.capacity
    ensures var d := Pushed(c, key);
            && Inv(d) && AsMap(d) == AsMap(c)[key := c.nextAlloc]
            && d.entryCount - CountValid(d.nodes) == c.entryCount - CountValid(c.nodes)
  {
    var d := Pushed(c, key);
    CountAfterAppend(c.nodes, NewNode(key, c.clock, c.buckets[Hash(key)]));
    PushedStructure(c, key);
    PushedSole(c, key);
    PushedMap(c, d, key);
  }

  lemma PushedMap(c: Cache, d: Cache, key: Key)
    requires Inv(c) && Inv(d) && key !in AsMap(c)
    requires |d.nodes| == |c.nodes| + 1 && d.nodes[..|c.nodes|] == c.nodes && Matches(d.nodes[|c.nodes|], key)
    ensures AsMap(d) == AsMap(c)[key := |c.nodes|]
  {
    forall k ensures (k in AsMap(d) <==> k in AsMap(c) || k == key)
                  && (k in AsMap(d) ==> AsMap(d)[k] == if k == key then |c.nodes| else AsMap(c)[k]) {
      PushedLookup(c, d, key, k);
    }
  }

  lemma PushedLookup(c: Cache, d: Cache, key: Key, k: Key)
    requires Inv(c) && Inv(d) && key !in AsMap(c)
    requires |d.nodes| == |c.nodes| + 1 && d.nodes[..|c.nodes|] == c.nodes && Matches(d.nodes[|c.nodes|], key)
    ensures k in AsMap(d) <==> k in AsMap(c) || k == key
    ensures k in AsMap(d) ==> AsMap(d)[k] == if k == key then |c.nodes| else AsMap(c)[k]
  {
    AsMapIs(c, k);
    AsMapIs(d, k);
    assert forall j :: 0 <= j < |c.nodes| ==> d.nodes[j] == c.nodes[j];
    if k in AsMap(c) {
      assert Matches(d.nodes[AsMap(c)[k]], k);
    }
    if k in AsMap(d) && AsMap(d)[k] < |c.nodes| {
      assert Matches(c.nodes[AsMap(d)[k]], k);
    }
  }

  /** Insertion, while the key is present or the next slot is clear of the bucket table: the result is the
    * map's node for the key; every other key stays, except that at the entry limit the victim's key leaves. */
  lemma InsertSpec(c: Cache, key: Key)
    requires Inv(c) && Room(c, key)
    ensures key in AsMap(c) || c.nextAlloc < c.capacity
    ensures Victim(c) != NIL ==> 0 <= Victim(c) < |c.nodes|
    ensures var (i, d) := Insert(c, key);
            && Inv(d)
            && (key in AsMap(c) ==> i == AsMap(c)[key] && AsMap(d) == AsMap(c))
            && (key !in AsMap(c) ==>
                  && i == c.nextAlloc
                  && AsMap(d) == (if c.entryCount < MAX_ENTRIES || Victim(c) == NIL then AsMap(c)
                                  else AsMap(c) - {c.nodes[Victim(c)].key})[key := i])
            && d.entryCount - CountValid(d.nodes) == c.entryCount - CountValid(c.nodes)
  {
    LocateIsMapLookup(c, key);
    AsMapIs(c, key);
    VictimSpec(c);
    var (i, d) := Insert(c, key);
    if key in AsMap(c) {
      NodeUpdate(c, d, i, Touched(c.nodes[i], c.clock));
    } else {
      WithRoomSpec(c);
      PushedSpec(WithRoom(c), key);
    }
  }

  /** How many valid nodes have this address. */
  function CountWith(nodes: seq<Node>, rip: Word): nat {
    if nodes == [] then 0
    else
      var last := nodes[|nodes| - 1];
      CountWith(nodes[..|nodes| - 1], rip) + (if last.valid && last.key.rip == rip then 1 else 0)
  }

  lemma {:induction false} CountAfterDropping(a: seq<Node>, b: seq<Node>, rip: Word)
    requires |a| == |b| && forall i :: 0 <= i < |a| ==> b[i] == Dropped(a[i], rip)
    ensures CountValid(b) == CountValid(a) - CountWith(a, rip)
  {
    if a != [] {
      CountAfterDropping(a[..|a| - 1], b[..|b| - 1], rip);
    }
  }

  /** Invalidation removes exactly the keys with this address; the entry count is left too high by
    * exactly the number of nodes it drops. */
  lemma InvalidateSpec(c: Cache, rip: Word)
    requires Inv(c)
    ensures var d := Invalidate(c, rip);
            && Inv(d) && d.entryCount == c.entryCount
            && d.entryCount - CountValid(d.nodes) == c.entryCount - CountValid(c.nodes) + CountWith(c.nodes, rip)
            && (forall key :: key in AsMap(d) <==> key in AsMap(c) && key.rip != rip)
            && (forall key :: key in AsMap(d) ==> AsMap(d)[key] == AsMap(c)[key])
  {
    var d := Invalidate(c, rip);
    CountAfterDropping(c.nodes, d.nodes, rip);
    WeakenedStructure(c, d);
    forall key ensures (key in AsMap(d) <==> key in AsMap(c) && key.rip != rip)
                    && (key in AsMap(d) ==> AsMap(d)[key] == AsMap(c)[key]) {
      WeakenedMap(c, d, key);
      AsMapIs(c, key);
    }
  }
}

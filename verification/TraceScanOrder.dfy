/** Exactly which entry the trace cache evicts, in numbers: the order of the eviction scan and the entry it
  * chooses. */
module TraceScanOrder {
  import opened Words
  import opened TraceCache
  import opened TraceEviction

  // ---- the order -----------------------------------------------------------

  /** How many buckets after bucket `start`, going round all 65536, a node's bucket comes. */
  function RoundFrom(n: Node, start: nat): nat { (Hash(n.key) + 65536 - start % 65536) % 65536 }

  /** The scan that starts in bucket `start` meets node `i` before node `j`: its bucket comes earlier, or it is
    * the newer node of the same bucket. */
  predicate Before(nodes: seq<Node>, start: nat, i: nat, j: nat)
    requires i < |nodes| && j < |nodes|
  {
    var p, q := RoundFrom(nodes[i], start), RoundFrom(nodes[j], start);
    p < q || (p == q && i > j)
  }

  predicate Ordered(nodes: seq<Node>, start: nat, s: seq<nat>) {
    && (forall k :: 0 <= k < |s| ==> s[k] < |nodes|)
    && forall j, k :: 0 <= j < k < |s| ==> Before(nodes, start, s[j], s[k])
  }

  lemma RoundIsDistance(n: Node, b: nat)
    requires b < 65536
    ensures RoundFrom(n, b) == Distance(b, Hash(n.key))
  {
  }

  lemma RoundNext(n: Node, b: nat)
    requires b < 65536 && Distance(NextBucket(b), Hash(n.key)) < 65535
    ensures RoundFrom(n, b) == RoundFrom(n, NextBucket(b)) + 1
  {
    RoundIsDistance(n, b);
    RoundIsDistance(n, NextBucket(b));
  }

  lemma {:induction false} EligibleDescends(nodes: seq<Node>, s: seq<nat>)
    requires forall j, k :: 0 <= j < k < |s| ==> s[j] > s[k]
    ensures var e := EligibleIn(nodes, s); forall j, k :: 0 <= j < k < |e| ==> e[j] > e[k]
  {
    if s != [] {
      EligibleDescends(nodes, s[1..]);
      var rest := EligibleIn(nodes, s[1..]);
      forall k | 0 <= k < |rest| ensures rest[k] < s[0] {
        EligibleInHas(nodes, s[1..], rest[k]);
        assert rest[k] in s[1..];
      }
    }
  }

  /** What one bucket contributes is in scan order. */
  lemma BucketOrdered(c: Cache, b: nat)
    requires Inv(c) && b < 65536
    ensures var first := EligibleIn(c.nodes, ChainOf(c, b));
            && Ordered(c.nodes, b, first) && forall k :: 0 <= k < |first| ==> RoundFrom(c.nodes[first[k]], b) == 0
  {
    assert BucketOk(c, b);
    ChainHolds(c.nodes, b, |c.nodes|, c.buckets[b]);
    ChainOfHolds(c, b);
    EligibleDescends(c.nodes, ChainOf(c, b));
    var first := EligibleIn(c.nodes, ChainOf(c, b));
    forall k | 0 <= k < |first| ensures first[k] < |c.nodes| && RoundFrom(c.nodes[first[k]], b) == 0 {
      EligibleInHas(c.nodes, ChainOf(c, b), first[k]);
      RoundIsDistance(c.nodes[first[k]], b);
    }
  }

  lemma OrderedConcat(nodes: seq<Node>, b: nat, s: seq<nat>, t: seq<nat>)
    requires Ordered(nodes, b, s) && Ordered(nodes, b, t)
    requires forall k :: 0 <= k < |s| ==> RoundFrom(nodes[s[k]], b) == 0
    requires forall k :: 0 <= k < |t| ==> RoundFrom(nodes[t[k]], b) > 0
    ensures Ordered(nodes, b, s + t)
  {
  }

  lemma OrderedShift(nodes: seq<Node>, b: nat, t: seq<nat>)
    requires b < 65536 && Ordered(nodes, NextBucket(b), t)
    requires forall k :: 0 <= k < |t| ==> Distance(NextBucket(b), Hash(nodes[t[k]].key)) < 65535
    ensures Ordered(nodes, b, t) && forall k :: 0 <= k < |t| ==> RoundFrom(nodes[t[k]], b) > 0
  {
    forall k | 0 <= k < |t|
      ensures RoundFrom(nodes[t[k]], b) == RoundFrom(nodes[t[k]], NextBucket(b)) + 1
    {
      RoundNext(nodes[t[k]], b);
    }
  }

  lemma RingMember(c: Cache, b: nat, n: nat, k: nat)
    requires Inv(c) && b < 65536 && n <= 65536 && k < |Ring(c, b, n)|
    ensures var i := Ring(c, b, n)[k]; i < |c.nodes| && Distance(b, Hash(c.nodes[i].key)) < n
  {
    var i := Ring(c, b, n)[k];
    assert i in Ring(c, b, n);
    RingBelow(c, b, n, i);
    RingHas(c, b, n, i);
  }

  lemma {:induction false} RingOrdered(c: Cache, b: nat, n: nat)
    requires Inv(c) && b < 65536 && n <= 65536
    ensures Ordered(c.nodes, b, Ring(c, b, n))
    decreases n
  {
    if n > 0 {
      var rest := Ring(c, NextBucket(b), n - 1);
      RingOrdered(c, NextBucket(b), n - 1);
      forall k | 0 <= k < |rest|
        ensures rest[k] < |c.nodes| && Distance(NextBucket(b), Hash(c.nodes[rest[k]].key)) < 65535
      {
        RingMember(c, NextBucket(b), n - 1, k);
      }
      OrderedShift(c.nodes, b, rest);
      BucketOrdered(c, b);
      OrderedConcat(c.nodes, b, EligibleIn(c.nodes, ChainOf(c, b)), rest);
    }
  }

  // ---- which nodes the scan looks at ---------------------------------------

  /** The eligible nodes the scan meets before node `i`. */
  ghost function Earlier(c: Cache, i: nat): set<nat>
    requires i < |c.nodes|
  {
    set j: nat | j < |c.nodes| && c.nodes[j].valid && c.nodes[j].pinCount == 0 && Before(c.nodes, c.clock, j, i)
  }

  lemma BeforeFromClock(nodes: seq<Node>, clock: nat, i: nat, j: nat)
    requires i < |nodes| && j < |nodes|
    ensures Before(nodes, clock % 65536, i, j) == Before(nodes, clock, i, j)
  {
  }

  /** Exactly the first `k` of the ring come before number `k`. */
  lemma EarlierArePrefix(c: Cache, ring: seq<nat>, k: nat)
    requires Ordered(c.nodes, c.clock, ring) && k < |ring| && Members(ring) == EligibleSet(c)
    ensures Earlier(c, ring[k]) == Members(ring[..k]) && |Earlier(c, ring[k])| == k
  {
    forall j | j in Earlier(c, ring[k]) ensures j in ring[..k] {
      assert j in Members(ring);
      var m :| 0 <= m < |ring| && ring[m] == j;
      assert m != k && !(k < m);
      assert ring[..k][m] == j;
    }
    forall j | j in ring[..k] ensures j in Earlier(c, ring[k]) {
      var m :| 0 <= m < k && ring[m] == j;
      assert ring[m] in ring && ring[m] in Members(ring);
      assert Before(c.nodes, c.clock, ring[m], ring[k]);
    }
    PrefixDistinct(c.nodes, c.clock, ring, k);
    SizeOfDistinct(ring[..k]);
  }

  lemma PrefixDistinct(nodes: seq<Node>, start: nat, ring: seq<nat>, k: nat)
    requires Ordered(nodes, start, ring) && k <= |ring|
    ensures NoDuplicates(ring[..k])
  {
    forall i, j | 0 <= i < j < k ensures ring[..k][i] != ring[..k][j] {
      assert Before(nodes, start, ring[i], ring[j]);
    }
  }

  lemma ClockRing(c: Cache) returns (ring: seq<nat>)
    requires Inv(c)
    ensures ring == Ring(c, c.clock % BUCKETS, |c.buckets|) && Members(ring) == EligibleSet(c)
    ensures Ordered(c.nodes, c.clock, ring)
  {
    ring := WholeRing(c);
    RingOrdered(c, c.clock % 65536, 65536);
    forall j, k | 0 <= j < k < |ring| ensures Before(c.nodes, c.clock, ring[j], ring[k]) {
      BeforeFromClock(c.nodes, c.clock, ring[j], ring[k]);
    }
  }

  /** The scan looks at exactly the eligible nodes that fewer than `scanDepth` eligible ones come before. */
  ghost predicate LooksAt(c: Cache, i: nat) {
    i < |c.nodes| && c.nodes[i].valid && c.nodes[i].pinCount == 0 && |Earlier(c, i)| < c.scanDepth
  }

  /** Configuring a depth changes how many nodes the scan looks at and nothing else, the order included. */
  lemma DepthTakesEffect(c: Cache, depth: Word32, i: nat)
    requires i < |c.nodes|
    ensures var d := Configure(c, depth);
            && d.nodes == c.nodes && d.buckets == c.buckets && d.clock == c.clock
            && (LooksAt(d, i) <==> c.nodes[i].valid && c.nodes[i].pinCount == 0 && |Earlier(c, i)| < depth)
  {
    assert Earlier(Configure(c, depth), i) == Earlier(c, i);
  }

  lemma LooksAtTaken(c: Cache, ring: seq<nat>, i: nat)
    requires Ordered(c.nodes, c.clock, ring) && Members(ring) == EligibleSet(c)
    ensures LooksAt(c, i) <==> i in Take(ring, c.scanDepth)
  {
    var taken := Take(ring, c.scanDepth);
    if i < |c.nodes| && c.nodes[i].valid && c.nodes[i].pinCount == 0 {
      assert i in Members(ring);
      var k :| 0 <= k < |ring| && ring[k] == i;
      EarlierArePrefix(c, ring, k);
      assert k < c.scanDepth ==> taken[k] == i;
      if i in taken {
        var m :| 0 <= m < |taken| && taken[m] == i;
        assert ring[m] == i;
        EarlierArePrefix(c, ring, m);
      }
    } else {
      assert i !in Members(ring);
    }
  }

  // ---- which of them it chooses --------------------------------------------

  /** The first of the sequence among those with the least counter. */
  predicate FirstLeast(nodes: seq<Node>, s: seq<nat>, m: nat)
    requires m < |s|
  {
    && (forall k :: 0 <= k < |s| ==> LruOf(nodes, s[m]) <= LruOf(nodes, s[k]))
    && (forall k :: 0 <= k < m ==> LruOf(nodes, s[m]) < LruOf(nodes, s[k]))
  }

  ghost predicate After(nodes: seq<Node>, done: seq<nat>, scan: Scan) {
    && scan.scanned == |done|
    && if done == [] then scan.victim == NIL && scan.minLru == W64 - 1
       else exists m: nat :: ChosenAt(nodes, done, scan, m)
  }

  predicate ChosenAt(nodes: seq<Node>, done: seq<nat>, scan: Scan, m: nat) {
    m < |done| && FirstLeast(nodes, done, m) && scan.victim == done[m] && scan.minLru == LruOf(nodes, done[m])
  }

  lemma AfterMet(nodes: seq<Node>, done: seq<nat>, scan: Scan, entry: nat)
    requires After(nodes, done, scan)
    ensures After(nodes, done + [entry], Met(scan, entry, LruOf(nodes, entry)))
  {
    var more := done + [entry];
    var lru := LruOf(nodes, entry);
    if lru < scan.minLru {
      assert more[|done|] == entry;
      assert ChosenAt(nodes, more, Met(scan, entry, lru), |done|);
    } else {
      var m: nat :| ChosenAt(nodes, done, scan, m);
      assert more[m] == done[m];
      assert ChosenAt(nodes, more, Met(scan, entry, lru), m);
    }
  }

  lemma {:induction false} ScanAfter(nodes: seq<Node>, done: seq<nat>, rest: seq<nat>, scan: Scan, depth: nat)
    requires After(nodes, done, scan) && |done| <= depth
    ensures After(nodes, Take(done + rest, depth), ScanOver(nodes, rest, scan, depth))
    decreases |rest|
  {
    if rest == [] || scan.scanned >= depth {
      assert Take(done + rest, depth) == done;
    } else {
      var now, next := done + [rest[0]], Met(scan, rest[0], LruOf(nodes, rest[0]));
      AfterMet(nodes, done, scan, rest[0]);
      assert now + rest[1..] == done + rest;
      ScanAfter(nodes, now, rest[1..], next, depth);
    }
  }

  /** Eviction takes node `v` rather than node `i`: its counter is less, or equal and it comes earlier. */
  predicate Prefers(c: Cache, v: nat, i: nat)
    requires v < |c.nodes| && i < |c.nodes|
  {
    c.nodes[v].lru < c.nodes[i].lru || (c.nodes[v].lru == c.nodes[i].lru && Before(c.nodes, c.clock, v, i))
  }

  /** The victim exactly: the one node looked at that eviction prefers to all others looked at, and none exactly
    * if it looks at none. */
  lemma VictimExactly(c: Cache)
    requires Inv(c)
    ensures Victim(c) == -1 <==> forall i :: !LooksAt(c, i)
    ensures Victim(c) != -1 ==>
              && 0 <= Victim(c) && LooksAt(c, Victim(c))
              && forall i :: LooksAt(c, i) && i != Victim(c) ==> Prefers(c, Victim(c), i)
  {
    var ring := ClockRing(c);
    var taken := Take(ring, c.scanDepth);
    assert [] + ring == ring;
    ScanAfter(c.nodes, [], ring, START, c.scanDepth);
    forall i: nat ensures LooksAt(c, i) <==> i in taken {
      LooksAtTaken(c, ring, i);
    }
    if taken != [] {
      var m: nat :| ChosenAt(c.nodes, taken, ScanOver(c.nodes, ring, START, c.scanDepth), m);
      assert LooksAt(c, taken[m]);
      forall i | LooksAt(c, i) && i != Victim(c) ensures Prefers(c, Victim(c), i) {
        var k :| 0 <= k < |taken| && taken[k] == i;
        FirstIsPreferred(c, ring, m, k);
      }
    }
  }

  lemma FirstIsPreferred(c: Cache, ring: seq<nat>, m: nat, k: nat)
    requires Ordered(c.nodes, c.clock, ring) && m < |Take(ring, c.scanDepth)| && k < |Take(ring, c.scanDepth)| && k != m
    requires FirstLeast(c.nodes, Take(ring, c.scanDepth), m)
    ensures Prefers(c, Take(ring, c.scanDepth)[m], Take(ring, c.scanDepth)[k])
  {
    var taken := Take(ring, c.scanDepth);
    assert taken[m] == ring[m] && taken[k] == ring[k];
    assert m < k ==> Before(c.nodes, c.clock, ring[m], ring[k]);
  }
}

/** Which entry the trace cache evicts: the ring scan looks at every eligible node at most once. */
module TraceEviction {
  import opened Words
  import opened TraceCache

  function Distance(b: nat, h: nat): nat
    requires b < BUCKETS && h < BUCKETS
  {
    if h >= b then h - b else h + BUCKETS - b
  }

  lemma ChainOfHolds(c: Cache, b: nat)
    requires Inv(c) && b < BUCKETS
    ensures forall i :: 0 <= i < |c.nodes| ==> (i in ChainOf(c, b) <==> Hash(c.nodes[i].key) == b)
    ensures NoDuplicates(ChainOf(c, b))
  {
    assert BucketOk(c, b);
    ChainHolds(c.nodes, b, |c.nodes|, c.buckets[b]);
    forall i | 0 <= i < |c.nodes| ensures i in ChainOf(c, b) <==> Hash(c.nodes[i].key) == b {
      assert i in ChainOf(c, b) <==> HashesTo(c.nodes, i, b);
    }
  }

  lemma {:induction false} EligibleInHas(nodes: seq<Node>, s: seq<nat>, i: nat)
    ensures i in EligibleIn(nodes, s) <==> i in s && EligibleAt(nodes, i)
  {
    if s != [] {
      EligibleInHas(nodes, s[1..], i);
      assert i in s <==> i == s[0] || i in s[1..];
    }
  }

  lemma {:induction false} RingHas(c: Cache, b: nat, n: nat, i: nat)
    requires Inv(c) && b < BUCKETS && n <= BUCKETS && i < |c.nodes|
    ensures i in Ring(c, b, n) <==> Eligible(c.nodes[i]) && Distance(b, Hash(c.nodes[i].key)) < n
    decreases n
  {
    if n > 0 {
      RingHas(c, NextBucket(b), n - 1, i);
      ChainOfHolds(c, b);
      EligibleInHas(c.nodes, ChainOf(c, b), i);
      assert i in Ring(c, b, n) <==> i in EligibleIn(c.nodes, ChainOf(c, b)) || i in Ring(c, NextBucket(b), n - 1);
    }
  }

  predicate NoDuplicates(s: seq<nat>) { forall j, k :: 0 <= j < k < |s| ==> s[j] != s[k] }

  lemma {:induction false} EligibleDistinct(nodes: seq<Node>, s: seq<nat>)
    requires NoDuplicates(s)
    ensures NoDuplicates(EligibleIn(nodes, s))
  {
    if s != [] {
      EligibleDistinct(nodes, s[1..]);
      EligibleInHas(nodes, s[1..], s[0]);
      assert s[0] !in s[1..];
    }
  }

  lemma {:induction false} RingBelow(c: Cache, b: nat, n: nat, i: nat)
    requires Inv(c) && b < BUCKETS && i in Ring(c, b, n)
    ensures EligibleAt(c.nodes, i)
    decreases n
  {
    if i in EligibleIn(c.nodes, ChainOf(c, b)) {
      EligibleInHas(c.nodes, ChainOf(c, b), i);
    } else {
      RingBelow(c, NextBucket(b), n - 1, i);
    }
  }

  lemma {:induction false} RingDistinct(c: Cache, b: nat, n: nat)
    requires Inv(c) && b < BUCKETS && n <= BUCKETS
    ensures NoDuplicates(Ring(c, b, n))
    decreases n
  {
    if n > 0 {
      var first, rest := EligibleIn(c.nodes, ChainOf(c, b)), Ring(c, NextBucket(b), n - 1);
      RingDistinct(c, NextBucket(b), n - 1);
      ChainOfHolds(c, b);
      EligibleDistinct(c.nodes, ChainOf(c, b));
      forall j, k | 0 <= j < |first| && 0 <= k < |rest| ensures first[j] != rest[k] {
        assert first[j] in first && rest[k] in rest;
        RingApart(c, b, n, first[j]);
      }
      ConcatDistinct(first, rest);
    }
  }

  lemma ConcatDistinct(s: seq<nat>, t: seq<nat>)
    requires NoDuplicates(s) && NoDuplicates(t) && forall j, k :: 0 <= j < |s| && 0 <= k < |t| ==> s[j] != t[k]
    ensures NoDuplicates(s + t)
  {
  }

  /** What bucket `b` contributes to a ring comes in none of the other buckets. */
  lemma RingApart(c: Cache, b: nat, n: nat, i: nat)
    requires Inv(c) && b < BUCKETS && 0 < n <= BUCKETS && i in EligibleIn(c.nodes, ChainOf(c, b))
    ensures i !in Ring(c, NextBucket(b), n - 1)
  {
    ChainOfHolds(c, b);
    EligibleInHas(c.nodes, ChainOf(c, b), i);
    RingHas(c, NextBucket(b), n - 1, i);
  }

  ghost function EligibleSet(c: Cache): set<nat> {
    set i: nat | i < |c.nodes| && Eligible(c.nodes[i])
  }

  function Members(s: seq<nat>): set<nat> { set x | x in s }

  lemma {:induction false} SizeOfDistinct(s: seq<nat>)
    requires NoDuplicates(s)
    ensures |Members(s)| == |s|
  {
    if s != [] {
      var t, last := s[..|s| - 1], s[|s| - 1];
      SizeOfDistinct(t);
      assert forall x :: x in s <==> x in t || x == last;
      assert Members(s) == Members(t) + {last} && last !in Members(t);
    }
  }

  /** The whole ring is a listing, without repetition, of all eligible nodes. */
  lemma WholeRing(c: Cache) returns (ring: seq<nat>)
    requires Inv(c)
    ensures ring == Ring(c, c.clock % BUCKETS, |c.buckets|)
    ensures Members(ring) == EligibleSet(c) && |ring| == |EligibleSet(c)|
  {
    var b, n := c.clock % BUCKETS, |c.buckets|;
    ring := Ring(c, b, n);
    RingDistinct(c, b, n);
    SizeOfDistinct(ring);
    forall i: nat ensures i in ring <==> EligibleAt(c.nodes, i) {
      if i in ring { RingBelow(c, b, n, i); }
      if EligibleAt(c.nodes, i) { RingHas(c, b, n, i); }
    }
  }

  // ---- the scan finds the least counter ------------------------------------

  ghost predicate HasLeastCounter(nodes: seq<Node>, v: nat, among: set<nat>) {
    forall i :: i in among ==> LruOf(nodes, v) <= LruOf(nodes, i)
  }

  /** What a scan state says about the candidates met. */
  ghost predicate Knows(nodes: seq<Node>, scan: Scan, seen: set<nat>) {
    if scan.victim == NIL then seen == {} && scan.minLru == W64 - 1
    else 0 <= scan.victim && scan.victim in seen && scan.minLru == LruOf(nodes, scan.victim)
         && HasLeastCounter(nodes, scan.victim, seen)
  }

  lemma MetKnows(nodes: seq<Node>, scan: Scan, seen: set<nat>, entry: nat)
    requires Knows(nodes, scan, seen)
    ensures Knows(nodes, Met(scan, entry, LruOf(nodes, entry)), seen + {entry})
  {
  }

  lemma TakeFirst(rest: seq<nat>, n: nat, seen: set<nat>)
    requires rest != [] && n > 0
    ensures seen + Members(Take(rest, n)) == seen + {rest[0]} + Members(Take(rest[1..], n - 1))
  {
    assert Take(rest, n) == [rest[0]] + Take(rest[1..], n - 1);
  }

  lemma {:induction false} ScanKnows(nodes: seq<Node>, rest: seq<nat>, scan: Scan, depth: nat, seen: set<nat>)
    requires Knows(nodes, scan, seen) && scan.scanned <= depth
    ensures Knows(nodes, ScanOver(nodes, rest, scan, depth), seen + Members(Take(rest, depth - scan.scanned)))
    decreases |rest|
  {
    var n := depth - scan.scanned;
    if rest == [] || n == 0 {
      assert seen + Members(Take(rest, n)) == seen;
    } else {
      MetKnows(nodes, scan, seen, rest[0]);
      ScanKnows(nodes, rest[1..], Met(scan, rest[0], LruOf(nodes, rest[0])), depth, seen + {rest[0]});
      TakeFirst(rest, n, seen);
    }
  }

  /** The victim is valid and unpinned and has the least counter among the first `scanDepth` eligible
    * nodes in ring order; there is none exactly when nothing is eligible (or the depth is zero); if
    * the eligible nodes do not exceed the depth it has the least counter of all of them. */
  lemma VictimSpec(c: Cache)
    requires Inv(c)
    ensures Victim(c) == NIL <==> EligibleSet(c) == {} || c.scanDepth == 0
    ensures Victim(c) != NIL ==> 0 <= Victim(c) < |c.nodes| && Eligible(c.nodes[Victim(c)])
    ensures Victim(c) != NIL ==> Victim(c) in Scanned(c) && HasLeastCounter(c.nodes, Victim(c), Members(Scanned(c)))
    ensures Victim(c) != NIL && |EligibleSet(c)| <= c.scanDepth ==> HasLeastCounter(c.nodes, Victim(c), EligibleSet(c))
  {
    var ring := WholeRing(c);
    ScanKnows(c.nodes, ring, START, c.scanDepth, {});
    assert {} + Members(Scanned(c)) == Members(Scanned(c));
    assert forall i :: i in Scanned(c) ==> i in Members(ring);
    if ring != [] && c.scanDepth > 0 {
      assert ring[0] in Members(Scanned(c)) by { assert Scanned(c)[0] == ring[0]; }
    }
    assert ring == [] <==> EligibleSet(c) == {} by {
      assert ring != [] ==> ring[0] in Members(ring);
    }
  }
}

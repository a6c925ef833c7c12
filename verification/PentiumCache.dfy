/** The simulator's direct-mapped cache and branch target buffer: what their counters count. */
module PentiumCache {
  import opened Division
  import opened Words

  // ---- the cache -----------------------------------------------------------

  datatype Cache = Cache(lineSize: nat, lines: seq<Option<int>>, hits: nat, misses: nat)

  predicate CacheOk(c: Cache) { c.lineSize > 0 && |c.lines| > 0 }

  function LineOf(lineSize: nat, address: int): int
    requires lineSize > 0
  {
    address / lineSize
  }

  function Slot(c: Cache, address: int): (i: nat)
    requires CacheOk(c)
    ensures i < |c.lines|
  {
    LineOf(c.lineSize, address) % |c.lines|
  }

  predicate Hit(c: Cache, address: int)
    requires CacheOk(c)
  {
    c.lines[Slot(c, address)] == Some(LineOf(c.lineSize, address) / |c.lines|)
  }

  function Access(c: Cache, address: int): (r: Cache)
    requires CacheOk(c)
    ensures CacheOk(r) && r.lineSize == c.lineSize && |r.lines| == |c.lines|
  {
    if Hit(c, address) then c.(hits := c.hits + 1)
    else c.(lines := c.lines[Slot(c, address) := Some(LineOf(c.lineSize, address) / |c.lines|)], misses := c.misses + 1)
  }

  /** The accesses in order, the last one applied last. */
  function Accesses(c: Cache, addresses: seq<int>): (r: Cache)
    requires CacheOk(c)
    ensures CacheOk(r) && r.lineSize == c.lineSize && |r.lines| == |c.lines|
    decreases |addresses|
  {
    if addresses == [] then c else Access(Accesses(c, addresses[..|addresses| - 1]), addresses[|addresses| - 1])
  }

  predicate Empty(c: Cache) {
    CacheOk(c) && c.hits == 0 && c.misses == 0 && forall i :: 0 <= i < |c.lines| ==> c.lines[i] == None
  }

  /** The line of the most recent access that fell on slot `i` of `n`. */
  function LastLine(lineSize: nat, n: nat, addresses: seq<int>, i: nat): Option<int>
    requires lineSize > 0 && n > 0
    decreases |addresses|
  {
    if addresses == [] then None
    else
      var line := LineOf(lineSize, addresses[|addresses| - 1]);
      if line % n == i then Some(line) else LastLine(lineSize, n, addresses[..|addresses| - 1], i)
  }

  lemma LineBySlotAndTag(a: int, b: int, n: nat)
    requires n > 0
    ensures a == b <==> a % n == b % n && a / n == b / n
  {
    assert a == a / n * n + a % n && b == b / n * n + b % n;
  }

  predicate Remembers(slot: Option<int>, last: Option<int>, n: nat)
    requires n > 0
  {
    match last case None => slot == None case Some(line) => slot == Some(line / n)
  }

  lemma {:induction false} SlotsHoldLastLines(c: Cache, addresses: seq<int>, i: nat)
    requires Empty(c) && i < |c.lines|
    ensures Remembers(Accesses(c, addresses).lines[i], LastLine(c.lineSize, |c.lines|, addresses, i), |c.lines|)
    decreases |addresses|
  {
    if addresses != [] {
      SlotsHoldLastLines(c, addresses[..|addresses| - 1], i);
    }
  }

  lemma {:induction false} LastLineFallsThere(lineSize: nat, n: nat, addresses: seq<int>, i: nat)
    requires lineSize > 0 && n > 0
    ensures var last := LastLine(lineSize, n, addresses, i); last.Some? ==> last.value % n == i
    decreases |addresses|
  {
    if addresses != [] {
      LastLineFallsThere(lineSize, n, addresses[..|addresses| - 1], i);
    }
  }

  /** After any accesses to an initially empty cache, an access hits exactly if the most recent access
    * that fell on its slot was to the same line. */
  lemma HitIffSameLine(c: Cache, addresses: seq<int>, address: int)
    requires Empty(c)
    ensures Hit(Accesses(c, addresses), address)
            <==> LastLine(c.lineSize, |c.lines|, addresses, Slot(c, address)) == Some(LineOf(c.lineSize, address))
  {
    var i, n := Slot(c, address), |c.lines|;
    SlotsHoldLastLines(c, addresses, i);
    LastLineFallsThere(c.lineSize, n, addresses, i);
    var last := LastLine(c.lineSize, n, addresses, i);
    if last.Some? {
      LineBySlotAndTag(last.value, LineOf(c.lineSize, address), n);
    }
  }

  /** Every access counts once. */
  lemma {:induction false} AccessesCounted(c: Cache, addresses: seq<int>)
    requires CacheOk(c)
    ensures var r := Accesses(c, addresses); r.hits + r.misses == c.hits + c.misses + |addresses|
    decreases |addresses|
  {
    if addresses != [] {
      AccessesCounted(c, addresses[..|addresses| - 1]);
    }
  }

  // ---- streams that creep upward -------------------------------------------

  /** No access goes back, and none skips a whole line. */
  predicate Creeps(addresses: seq<int>, lineSize: nat) {
    forall k :: 0 < k < |addresses| ==> addresses[k - 1] <= addresses[k] <= addresses[k - 1] + lineSize
  }

  predicate Cached(c: Cache, line: int)
    requires CacheOk(c)
  {
    c.lines[line % |c.lines|] == Some(line / |c.lines|)
  }

  /** `top` is cached and no cached line is beyond it. */
  ghost predicate TopIs(c: Cache, top: int)
    requires CacheOk(c)
  {
    Cached(c, top) && forall line :: Cached(c, line) ==> line <= top
  }

  lemma CachedAfter(c: Cache, address: int, line: int)
    requires CacheOk(c)
    ensures Cached(Access(c, address), line) ==> Cached(c, line) || line == LineOf(c.lineSize, address)
    ensures line == LineOf(c.lineSize, address) ==> Cached(Access(c, address), line)
  {
    LineBySlotAndTag(line, LineOf(c.lineSize, address), |c.lines|);
  }

  lemma NextLine(a: int, b: int, lineSize: nat)
    requires lineSize > 0 && a <= b <= a + lineSize
    ensures LineOf(lineSize, a) <= LineOf(lineSize, b) <= LineOf(lineSize, a) + 1
  {
    var q, p := a / lineSize, b / lineSize;
    assert a == q * lineSize + a % lineSize && b == p * lineSize + b % lineSize;
    if p < q {
      ProductMonotone(p + 1, q, lineSize);
    } else if p > q + 1 {
      ProductMonotone(q + 2, p, lineSize);
    }
  }

  lemma FirstAccess(c: Cache, address: int)
    requires Empty(c)
    ensures TopIs(Access(c, address), LineOf(c.lineSize, address)) && Access(c, address).misses == 1
  {
    forall line | Cached(Access(c, address), line) ensures line <= LineOf(c.lineSize, address) {
      CachedAfter(c, address, line);
    }
    CachedAfter(c, address, LineOf(c.lineSize, address));
  }

  lemma NextAccess(c: Cache, top: int, address: int)
    requires CacheOk(c) && TopIs(c, top) && top <= LineOf(c.lineSize, address) <= top + 1
    ensures TopIs(Access(c, address), LineOf(c.lineSize, address))
    ensures Access(c, address).misses == c.misses + LineOf(c.lineSize, address) - top
  {
    var next := LineOf(c.lineSize, address);
    assert Hit(c, address) <==> Cached(c, next);
    forall line | Cached(Access(c, address), line) ensures line <= next {
      CachedAfter(c, address, line);
    }
    CachedAfter(c, address, next);
  }

  /** A creeping stream misses once for every line from its first to its last. */
  lemma {:induction false} CreepingMisses(c: Cache, addresses: seq<int>)
    requires Empty(c) && addresses != [] && Creeps(addresses, c.lineSize)
    ensures var r, last := Accesses(c, addresses), LineOf(c.lineSize, addresses[|addresses| - 1]);
            r.misses == 1 + last - LineOf(c.lineSize, addresses[0]) && TopIs(r, last)
    decreases |addresses|
  {
    var k := |addresses| - 1;
    if k == 0 {
      assert addresses[..0] == [];
      FirstAccess(c, addresses[0]);
    } else {
      CreepingMisses(c, addresses[..k]);
      NextLine(addresses[k - 1], addresses[k], c.lineSize);
      NextAccess(Accesses(c, addresses[..k]), LineOf(c.lineSize, addresses[k - 1]), addresses[k]);
    }
  }

  // ---- the branch target buffer --------------------------------------------

  datatype Branch = Branch(pc: int, taken: bool)

  datatype Btb = Btb(table: seq<bool>, hits: nat, misses: nat)

  function Entry(n: nat, pc: int): (i: nat)
    requires n > 0
    ensures i < n
  {
    pc / 4 % n
  }

  predicate Foreseen(b: Btb, branch: Branch)
    requires |b.table| > 0
  {
    b.table[Entry(|b.table|, branch.pc)] == branch.taken
  }

  function Resolve(b: Btb, branch: Branch): (r: Btb)
    requires |b.table| > 0
    ensures |r.table| == |b.table|
  {
    if Foreseen(b, branch) then b.(hits := b.hits + 1)
    else b.(table := b.table[Entry(|b.table|, branch.pc) := branch.taken], misses := b.misses + 1)
  }

  function ResolveAll(b: Btb, branches: seq<Branch>): (r: Btb)
    requires |b.table| > 0
    ensures |r.table| == |b.table|
    decreases |branches|
  {
    if branches == [] then b else Resolve(ResolveAll(b, branches[..|branches| - 1]), branches[|branches| - 1])
  }

  predicate AllNotTaken(b: Btb) {
    |b.table| > 0 && b.hits == 0 && b.misses == 0 && forall i :: 0 <= i < |b.table| ==> !b.table[i]
  }

  /** The direction of the last branch that fell on entry `i`; not taken if there was none. */
  predicate LastTaken(n: nat, branches: seq<Branch>, i: nat)
    requires n > 0
    decreases |branches|
  {
    branches != [] &&
    var b := branches[|branches| - 1];
    if Entry(n, b.pc) == i then b.taken else LastTaken(n, branches[..|branches| - 1], i)
  }

  /** How often a branch went another way than the one before it on the same entry. */
  function Changes(n: nat, branches: seq<Branch>): nat
    requires n > 0
    decreases |branches|
  {
    if branches == [] then 0
    else
      var before, b := branches[..|branches| - 1], branches[|branches| - 1];
      Changes(n, before) + (if LastTaken(n, before, Entry(n, b.pc)) != b.taken then 1 else 0)
  }

  /** Mispredictions are exactly the direction changes per entry, starting from not taken. */
  lemma {:induction false} MissesAreChanges(b: Btb, branches: seq<Branch>)
    requires AllNotTaken(b)
    ensures var r, n := ResolveAll(b, branches), |b.table|;
            && r.misses == Changes(n, branches) && r.hits == |branches| - Changes(n, branches)
            && forall i :: 0 <= i < n ==> r.table[i] == LastTaken(n, branches, i)
    decreases |branches|
  {
    if branches != [] {
      MissesAreChanges(b, branches[..|branches| - 1]);
    }
  }
}

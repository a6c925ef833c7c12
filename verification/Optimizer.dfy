/**
 * The peephole optimizer: two passes that delete operations from a block in place.
 * The method is proved equal to the function Optimize; the theorems are about Optimize.
 */
module Optimizer {
  import opened Words
  import opened Ir
  import opened Machine

  /** Removed by the first pass: Nops and self-moves. */
  predicate Dead(op: MicroOpInst) {
    op.code.Nop? || (op.code.MovRR? && op.dst == op.src1)
  }

  /** Removed by the second pass: a move straight back of the move before it. */
  predicate Undoes(first: MicroOpInst, second: MicroOpInst) {
    first.code.MovRR? && second.code.MovRR? && first.dst == second.src1 && first.src1 == second.dst
  }

  function DropDead(ops: seq<MicroOpInst>): seq<MicroOpInst> {
    if ops == [] then []
    else if Dead(ops[0]) then DropDead(ops[1..])
    else [ops[0]] + DropDead(ops[1..])
  }

  function DropUndone(ops: seq<MicroOpInst>): seq<MicroOpInst>
    decreases |ops|
  {
    if |ops| < 2 then ops
    else if Undoes(ops[0], ops[1]) then DropUndone([ops[0]] + ops[2..])
    else [ops[0]] + DropUndone(ops[1..])
  }

  function Optimize(ops: seq<MicroOpInst>): seq<MicroOpInst> {
    DropUndone(DropDead(ops))
  }

  /** The block with the element at `i` taken out. */
  function Without(ops: seq<MicroOpInst>, i: nat): seq<MicroOpInst>
    requires i < |ops|
  {
    ops[..i] + ops[i + 1..]
  }

  /** A block whose first `i` operations the pass has already settled. */
  function DeadFrom(ops: seq<MicroOpInst>, i: nat): seq<MicroOpInst>
    requires i <= |ops|
  {
    ops[..i] + DropDead(ops[i..])
  }

  function UndoneFrom(ops: seq<MicroOpInst>, i: nat): seq<MicroOpInst>
    requires i <= |ops|
  {
    ops[..i] + DropUndone(ops[i..])
  }

  lemma DeadStep(ops: seq<MicroOpInst>, i: nat)
    requires i < |ops|
    ensures DeadFrom(ops, i) == if Dead(ops[i]) then DeadFrom(Without(ops, i), i) else DeadFrom(ops, i + 1)
  {
    assert ops[i..][1..] == ops[i + 1..];
    if Dead(ops[i]) {
      assert Without(ops, i)[..i] == ops[..i] && Without(ops, i)[i..] == ops[i + 1..];
    }
  }

  lemma UndoneStep(ops: seq<MicroOpInst>, i: nat)
    requires i + 1 < |ops|
    ensures UndoneFrom(ops, i)
            == if Undoes(ops[i], ops[i + 1]) then UndoneFrom(Without(ops, i + 1), i) else UndoneFrom(ops, i + 1)
  {
    var rest := ops[i..];
    assert rest[1..] == ops[i + 1..];
    if Undoes(ops[i], ops[i + 1]) {
      WithoutSecond(ops, i);
    }
  }

  lemma WithoutSecond(ops: seq<MicroOpInst>, i: nat)
    requires i + 1 < |ops|
    ensures Without(ops, i + 1)[..i] == ops[..i]
    ensures Without(ops, i + 1)[i..] == [ops[i..][0]] + ops[i..][2..]
  {
  }

  lemma UndoneAtEnd(ops: seq<MicroOpInst>)
    requires ops != []
    ensures UndoneFrom(ops, |ops| - 1) == ops
  {
    assert ops[|ops| - 1..] == [ops[|ops| - 1]];
  }

  /** The first loop: eliminate Nops and self-moves. */
  method EliminateDead(tb: TranslationBlock)
    requires tb.Valid()
    modifies tb, tb.microOps
    ensures tb.Valid()
    ensures tb.Contents() == DropDead(old(tb.Contents()))
  {
    var i := 0;
    assert tb.Contents()[0..] == tb.Contents();
    while i < tb.microOpCount
      invariant tb.Valid() && 0 <= i <= tb.microOpCount
      invariant DeadFrom(tb.Contents(), i) == DropDead(old(tb.Contents()))
      decreases tb.microOpCount - i
    {
      DeadStep(tb.Contents(), i);
      var uop := tb.microOps[i];
      if uop.code.Nop? || (uop.code.MovRR? && uop.dst == uop.src1) {
        tb.Remove(i);
      } else {
        i := i + 1;
      }
    }
  }

  /** The second loop: eliminate moves straight back. The count stays positive, so the bound
    * `microOpCount - 1` never underflows. */
  method EliminateUndone(tb: TranslationBlock)
    requires tb.Valid() && tb.microOpCount > 1
    modifies tb, tb.microOps
    ensures tb.Valid()
    ensures tb.Contents() == DropUndone(old(tb.Contents()))
  {
    var i := 0;
    assert tb.Contents()[0..] == tb.Contents();
    while i < tb.microOpCount - 1
      invariant tb.Valid() && 0 <= i < tb.microOpCount
      invariant UndoneFrom(tb.Contents(), i) == DropUndone(old(tb.Contents()))
      decreases tb.microOpCount - i
    {
      ghost var ops := tb.Contents();
      UndoneStep(ops, i);
      var uop1 := tb.microOps[i];
      var uop2 := tb.microOps[i + 1];
      if uop1.code.MovRR? && uop2.code.MovRR? {
        if uop1.dst == uop2.src1 && uop1.src1 == uop2.dst {
          tb.Remove(i + 1);
          assert tb.Contents() == Without(ops, i + 1);
          continue;
        }
      }
      i := i + 1;
    }
    UndoneAtEnd(tb.Contents());
  }

  method OptimizeBlock(tb: TranslationBlock)
    requires tb.Valid()
    modifies tb, tb.microOps
    ensures tb.Valid()
    ensures tb.Contents() == Optimize(old(tb.Contents()))
  {
    EliminateDead(tb);
    if tb.microOpCount > 1 {
      EliminateUndone(tb);
    }
  }

  // ---- meaning -------------------------------------------------------------

  /** A move into the register that drops writes, followed by the move back, loads zero. */
  predicate Hazard(first: MicroOpInst, second: MicroOpInst) {
    Undoes(first, second) && first.dst == RNone && first.src1 != RNone
  }

  /** The second pass compares a hazardous pair at some point. */
  predicate MeetsHazard(ops: seq<MicroOpInst>)
    decreases |ops|
  {
    |ops| >= 2
    && if Undoes(ops[0], ops[1]) then Hazard(ops[0], ops[1]) || MeetsHazard([ops[0]] + ops[2..])
       else MeetsHazard(ops[1..])
  }

  /** Along the run from this state, every hazardous pair that is deleted finds its register zero. */
  predicate Harmless(cb: Callbacks, ops: seq<MicroOpInst>, st: State, ip: Option<Word>)
    decreases |ops|
  {
    if |ops| < 2 then true
    else if Undoes(ops[0], ops[1]) then
      (Hazard(ops[0], ops[1]) ==> st.Read(ops[0].src1) == 0) && Harmless(cb, [ops[0]] + ops[2..], st, ip)
    else
      var o := Step(cb, ops[0], st, ip);
      o.Done? && !EndsBlock(ops[0].code) ==> Harmless(cb, ops[1..], o.st, o.ip)
  }

  /** Running `ops` and running `opts` end the same way. */
  predicate SameRun(cb: Callbacks, opts: seq<MicroOpInst>, ops: seq<MicroOpInst>, st: State, ip: Option<Word>) {
    Run(cb, opts, st, ip) == Run(cb, ops, st, ip)
  }

  lemma DeadDoesNothing(cb: Callbacks, op: MicroOpInst, st: State, ip: Option<Word>)
    requires Dead(op)
    ensures Step(cb, op, st, ip) == Done(st, ip)
  {
    if op.code.MovRR? && op.dst != RNone {
      assert st.regs[op.dst := st.regs[op.dst]] == st.regs;
    }
  }

  lemma {:induction false} DropDeadPreserves(cb: Callbacks, ops: seq<MicroOpInst>, st: State, ip: Option<Word>)
    ensures SameRun(cb, DropDead(ops), ops, st, ip)
  {
    if ops == [] {
    } else if Dead(ops[0]) {
      DeadDoesNothing(cb, ops[0], st, ip);
      DropDeadPreserves(cb, ops[1..], st, ip);
    } else {
      var o := Step(cb, ops[0], st, ip);
      assert DropDead(ops)[1..] == DropDead(ops[1..]);
      if o.Done? && !EndsBlock(ops[0].code) {
        DropDeadPreserves(cb, ops[1..], o.st, o.ip);
      }
    }
  }

  /** What the pair does, compared with its first move alone. */
  lemma PairState(first: MicroOpInst, second: MicroOpInst, st: State)
    requires Undoes(first, second)
    ensures StepMove(second, StepMove(first, st)) == StepMove(first, st)
            <==> (Hazard(first, second) ==> st.Read(first.src1) == 0)
  {
    var moved := StepMove(first, st);
    if Hazard(first, second) {
      assert moved == st;
      assert StepMove(second, st).regs[first.src1] == 0;
      if st.regs[first.src1] == 0 {
        assert st.regs[first.src1 := 0] == st.regs;
      }
    } else if second.dst != RNone {
      assert moved.regs[second.dst := moved.Read(second.src1)] == moved.regs;
    }
  }

  lemma PairRun(cb: Callbacks, first: MicroOpInst, second: MicroOpInst, rest: seq<MicroOpInst>, st: State,
                ip: Option<Word>)
    requires Undoes(first, second)
    ensures Run(cb, [first, second] + rest, st, ip)
            == Run(cb, rest, StepMove(second, StepMove(first, st)), ip)
    ensures Run(cb, [first] + rest, st, ip) == Run(cb, rest, StepMove(first, st), ip)
  {
    assert ([first, second] + rest)[1..] == [second] + rest;
    assert ([first] + rest)[1..] == rest && ([second] + rest)[1..] == rest;
  }

  /** Deleting the second move of a pair is sound in every context exactly when the pair is not hazardous. */
  lemma RemovalSoundIffNoHazard(cb: Callbacks, first: MicroOpInst, second: MicroOpInst)
    requires Undoes(first, second)
    ensures (forall rest, st, ip :: SameRun(cb, [first] + rest, [first, second] + rest, st, ip))
            <==> !Hazard(first, second)
  {
    if Hazard(first, second) {
      var st := State(seq(33, _ => 1), []);
      PairRun(cb, first, second, [], st, None);
      PairState(first, second, st);
      assert !SameRun(cb, [first] + [], [first, second] + [], st, None);
    } else {
      forall rest, st, ip ensures SameRun(cb, [first] + rest, [first, second] + rest, st, ip) {
        PairRun(cb, first, second, rest, st, ip);
        PairState(first, second, st);
      }
    }
  }

  lemma {:induction false} NoHazardIsHarmless(cb: Callbacks, ops: seq<MicroOpInst>, st: State, ip: Option<Word>)
    requires !MeetsHazard(ops)
    ensures Harmless(cb, ops, st, ip)
    decreases |ops|
  {
    if |ops| < 2 {
    } else if Undoes(ops[0], ops[1]) {
      NoHazardIsHarmless(cb, [ops[0]] + ops[2..], st, ip);
    } else {
      var o := Step(cb, ops[0], st, ip);
      if o.Done? {
        NoHazardIsHarmless(cb, ops[1..], o.st, o.ip);
      }
    }
  }

  lemma {:induction false} DropUndonePreserves(cb: Callbacks, ops: seq<MicroOpInst>, st: State, ip: Option<Word>)
    requires Harmless(cb, ops, st, ip)
    ensures SameRun(cb, DropUndone(ops), ops, st, ip)
    decreases |ops|
  {
    if |ops| < 2 {
    } else if Undoes(ops[0], ops[1]) {
      PairRun(cb, ops[0], ops[1], ops[2..], st, ip);
      PairState(ops[0], ops[1], st);
      assert ops == [ops[0], ops[1]] + ops[2..];
      DropUndonePreserves(cb, [ops[0]] + ops[2..], st, ip);
    } else {
      assert DropUndone(ops)[1..] == DropUndone(ops[1..]);
      var o := Step(cb, ops[0], st, ip);
      if o.Done? && !EndsBlock(ops[0].code) {
        DropUndonePreserves(cb, ops[1..], o.st, o.ip);
      }
    }
  }

  /**
   * The optimizer preserves meaning: for every block in which the second pass meets no hazardous
   * pair, every register file, callback behaviour and history, the result, the successor address,
   * the registers and the memory calls are the same before and after.
   */
  lemma OptimizePreservesMeaning(cb: Callbacks, ops: seq<MicroOpInst>, st: State, ip: Option<Word>)
    requires !MeetsHazard(DropDead(ops))
    ensures SameRun(cb, Optimize(ops), ops, st, ip)
  {
    DropDeadPreserves(cb, ops, st, ip);
    NoHazardIsHarmless(cb, DropDead(ops), st, ip);
    DropUndonePreserves(cb, DropDead(ops), st, ip);
  }

  // ---- exactly when the second pass preserves meaning ----------------------

  lemma {:induction false} HarmlessPrefix(cb: Callbacks, ops: seq<MicroOpInst>, st: State, ip: Option<Word>, k: nat)
    requires Harmless(cb, ops, st, ip) && k <= |ops|
    ensures Harmless(cb, ops[..k], st, ip)
    decreases |ops|
  {
    if k < 2 {
    } else if Undoes(ops[0], ops[1]) {
      var shorter := [ops[0]] + ops[2..];
      HarmlessPrefix(cb, shorter, st, ip, k - 1);
      assert shorter[..k - 1] == [ops[..k][0]] + ops[..k][2..];
    } else {
      var o := Step(cb, ops[0], st, ip);
      if o.Done? && !EndsBlock(ops[0].code) {
        HarmlessPrefix(cb, ops[1..], o.st, o.ip, k - 1);
        assert ops[1..][..k - 1] == ops[..k][1..];
      }
    }
  }

  /** A harmful pair is visible at the end of some prefix of the block. */
  lemma {:induction false} HarmShows(cb: Callbacks, ops: seq<MicroOpInst>, st: State, ip: Option<Word>) returns (k: nat)
    requires !Harmless(cb, ops, st, ip)
    ensures 2 <= k <= |ops| && !SameRun(cb, DropUndone(ops[..k]), ops[..k], st, ip)
    decreases |ops|
  {
    if Undoes(ops[0], ops[1]) {
      PairState(ops[0], ops[1], st);
      if Hazard(ops[0], ops[1]) && st.Read(ops[0].src1) != 0 {
        k := 2;
        PairRun(cb, ops[0], ops[1], ops[2..2], st, ip);
        PrefixWithPair(ops, 2);
      } else {
        var shorter := [ops[0]] + ops[2..];
        var j := HarmShows(cb, shorter, st, ip);
        k := j + 1;
        PairRun(cb, ops[0], ops[1], ops[2..k], st, ip);
        PrefixWithPair(ops, k);
      }
    } else {
      var o := Step(cb, ops[0], st, ip);
      var j := HarmShows(cb, ops[1..], o.st, o.ip);
      k := j + 1;
      assert ops[..k][1..] == ops[1..][..j];
      assert DropUndone(ops[..k])[1..] == DropUndone(ops[..k][1..]);
    }
  }

  /** A prefix that holds the first two operations, and the same prefix without the second. */
  lemma PrefixWithPair(ops: seq<MicroOpInst>, k: nat)
    requires 2 <= k <= |ops|
    ensures ops[..k] == [ops[0], ops[1]] + ops[2..k]
    ensures [ops[0]] + ops[..k][2..] == [ops[0]] + ops[2..k] == ([ops[0]] + ops[2..])[..k - 1]
  {
  }

  /** From a given state, the second pass preserves every prefix of a block exactly when each
    * hazardous pair it deletes along the run finds its register already zero. */
  lemma SecondPassExact(cb: Callbacks, ops: seq<MicroOpInst>, st: State, ip: Option<Word>)
    ensures (forall k :: 0 <= k <= |ops| ==> SameRun(cb, DropUndone(ops[..k]), ops[..k], st, ip))
            <==> Harmless(cb, ops, st, ip)
  {
    if Harmless(cb, ops, st, ip) {
      forall k | 0 <= k <= |ops| ensures SameRun(cb, DropUndone(ops[..k]), ops[..k], st, ip) {
        HarmlessPrefix(cb, ops, st, ip, k);
        DropUndonePreserves(cb, ops[..k], st, ip);
      }
    } else {
      var k := HarmShows(cb, ops, st, ip);
    }
  }

  // ---- normal form ---------------------------------------------------------

  /** No no-operation, no move of a register to itself, and no register move followed by its reverse. */
  predicate NormalForm(ops: seq<MicroOpInst>) {
    && (forall i :: 0 <= i < |ops| ==> ops[i].code != Nop)
    && (forall i :: 0 <= i < |ops| && ops[i].code == MovRR ==> ops[i].dst != ops[i].src1)
    && (forall i :: 0 <= i < |ops| - 1 && ops[i].code == MovRR && ops[i + 1].code == MovRR ==>
          ops[i + 1].dst != ops[i].src1 || ops[i + 1].src1 != ops[i].dst)
  }

  lemma NormalFormIs(ops: seq<MicroOpInst>)
    ensures NormalForm(ops) <==>
            && (forall i :: 0 <= i < |ops| ==> !Dead(ops[i]))
            && (forall i :: 0 <= i < |ops| - 1 ==> !Undoes(ops[i], ops[i + 1]))
  {
    if NormalForm(ops) {
      forall i | 0 <= i < |ops| - 1 ensures !Undoes(ops[i], ops[i + 1]) {
      }
    }
  }

  /** `part` is `whole` with some elements deleted and the order kept. */
  predicate Subsequence(part: seq<MicroOpInst>, whole: seq<MicroOpInst>) {
    part == []
    || (whole != []
        && ((part[0] == whole[0] && Subsequence(part[1..], whole[1..])) || Subsequence(part, whole[1..])))
  }

  lemma {:induction false} SubsequenceTransitive(a: seq<MicroOpInst>, b: seq<MicroOpInst>, c: seq<MicroOpInst>)
    requires Subsequence(a, b) && Subsequence(b, c)
    ensures Subsequence(a, c)
    decreases |b| + |c|
  {
    if a == [] {
    } else if Subsequence(b, c[1..]) {
      SubsequenceTransitive(a, b, c[1..]);
    } else if a[0] == b[0] && Subsequence(a[1..], b[1..]) {
      SubsequenceTransitive(a[1..], b[1..], c[1..]);
    } else {
      SubsequenceTransitive(a, b[1..], c[1..]);
    }
  }

  lemma {:induction false} SubsequenceReflexive(a: seq<MicroOpInst>)
    ensures Subsequence(a, a)
  {
    if a != [] {
      SubsequenceReflexive(a[1..]);
    }
  }

  lemma {:induction false} DropDeadShape(ops: seq<MicroOpInst>)
    ensures Subsequence(DropDead(ops), ops)
    ensures forall i :: 0 <= i < |DropDead(ops)| ==> !Dead(DropDead(ops)[i])
    ensures forall op :: op in ops && !Dead(op) ==> op in DropDead(ops)
  {
    if ops != [] {
      DropDeadShape(ops[1..]);
      if !Dead(ops[0]) {
        assert DropDead(ops)[1..] == DropDead(ops[1..]);
      }
    }
  }

  lemma {:induction false} DropUndoneShape(ops: seq<MicroOpInst>)
    ensures var r := DropUndone(ops);
            && Subsequence(r, ops)
            && (ops != [] ==> r != [] && r[0] == ops[0])
            && (forall i :: 0 <= i < |r| ==> r[i] in ops)
            && (forall i :: 0 <= i < |r| - 1 ==> !Undoes(r[i], r[i + 1]))
    decreases |ops|
  {
    var r := DropUndone(ops);
    if |ops| < 2 {
      SubsequenceReflexive(ops);
    } else if Undoes(ops[0], ops[1]) {
      var shorter := [ops[0]] + ops[2..];
      DropUndoneShape(shorter);
      SubsequenceReflexive(ops[2..]);
      assert shorter[1..] == ops[2..] && ops[1..][1..] == ops[2..];
      assert Subsequence(ops[2..], ops[1..]);
      assert Subsequence(shorter, ops);
      SubsequenceTransitive(r, shorter, ops);
    } else {
      DropUndoneShape(ops[1..]);
      assert r[1..] == DropUndone(ops[1..]);
    }
  }

  lemma {:induction false} NormalFormIsFixed(ops: seq<MicroOpInst>)
    requires NormalForm(ops)
    ensures DropDead(ops) == ops && DropUndone(ops) == ops
  {
    if ops != [] {
      NormalFormIs(ops);
      NormalFormIs(ops[1..]);
      forall i | 0 <= i < |ops[1..]| - 1 ensures !Undoes(ops[1..][i], ops[1..][i + 1]) {
        assert !Undoes(ops[i + 1], ops[i + 2]);
      }
      NormalFormIsFixed(ops[1..]);
    }
  }

  /** The result is an order-preserving part of the block in normal form; blocks in normal form are
    * exactly the fixed points, so a second run changes nothing. */
  lemma OptimizeNormalizes(ops: seq<MicroOpInst>)
    ensures NormalForm(Optimize(ops)) && Subsequence(Optimize(ops), ops)
    ensures Optimize(ops) == ops <==> NormalForm(ops)
    ensures Optimize(Optimize(ops)) == Optimize(ops)
  {
    DropDeadShape(ops);
    DropUndoneShape(DropDead(ops));
    SubsequenceTransitive(Optimize(ops), DropDead(ops), ops);
    NormalFormIs(Optimize(ops));
    NormalFormIsFixed(Optimize(ops));
    if NormalForm(ops) {
      NormalFormIsFixed(ops);
    }
  }

  const INTO_NONE := MicroOpInst(MovRR, RNone, RAX, RNone, 0, 8)
  const BACK := MicroOpInst(MovRR, RAX, RNone, RNone, 0, 8)

  /** A block that the optimizer does change: the original zeroes RAX, the optimized one keeps it. */
  lemma HazardousBlock(cb: Callbacks, st: State)
    requires st.Read(RAX) != 0
    ensures !SameRun(cb, Optimize([INTO_NONE, BACK]), [INTO_NONE, BACK], st, None)
  {
    var ops := [INTO_NONE, BACK];
    assert DropDead(ops[1..]) == [BACK] by { assert ops[1..] == [BACK] && ops[1..][1..] == []; }
    assert [ops[0]] + ops[2..] == [INTO_NONE];
    PairRun(cb, INTO_NONE, BACK, [], st, None);
    PairState(INTO_NONE, BACK, st);
    assert ops == [INTO_NONE, BACK] + [] && [INTO_NONE] == [INTO_NONE] + [];
    assert DropDead(ops) == ops;
    assert DropUndone(ops) == [INTO_NONE];
    assert StepMove(INTO_NONE, st).Read(RAX) != StepMove(BACK, StepMove(INTO_NONE, st)).Read(RAX);
  }
}

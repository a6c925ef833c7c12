/** A comparison followed by a conditional jump takes the jump exactly when the named relation holds. */
module Branches {
  import opened Words
  import opened Ir
  import opened Machine

  /** The relation each condition code names, between the two compared words. Codes 0xA and 0xB
    * (parity) and everything above 0xF are never taken. */
  predicate Relation(condition: Register, x: Word, y: Word) {
    var difference := Signed(x) - Signed(y);
    match condition
    case 0x0 => difference < -HALF64 || difference >= HALF64
    case 0x1 => -HALF64 <= difference < HALF64
    case 0x2 => x < y
    case 0x3 => x >= y
    case 0x4 => x == y
    case 0x5 => x != y
    case 0x6 => x <= y
    case 0x7 => x > y
    case 0x8 => Signed(SubW(x, y)) < 0
    case 0x9 => Signed(SubW(x, y)) >= 0
    case 0xC => Signed(x) < Signed(y)
    case 0xD => Signed(x) >= Signed(y)
    case 0xE => Signed(x) <= Signed(y)
    case 0xF => Signed(x) > Signed(y)
    case _ => false
  }

  /** The four flag bits of a comparison, each as the property of the operands it stands for. */
  lemma CompareFlags(x: Word, y: Word)
    ensures var flags := ArithFlags(SubW(x, y), x, y, true);
            && (FlagBit(flags, CF) <==> x < y)
            && (FlagBit(flags, ZF) <==> x == y)
            && (FlagBit(flags, SF) <==> Signed(SubW(x, y)) < 0)
            && (FlagBit(flags, OF) <==> Signed(x) - Signed(y) != Signed(SubW(x, y)))
  {
    var r := SubW(x, y);
    assert r == if x >= y then x - y else x - y + W64;
    assert TopDiffersFromBoth(x, y, r) <==> Signed(x) - Signed(y) != Signed(r);
  }

  lemma TakenIffRelation(condition: Register, x: Word, y: Word)
    ensures Taken(condition, ArithFlags(SubW(x, y), x, y, true)) <==> Relation(condition, x, y)
  {
    CompareFlags(x, y);
    var r := SubW(x, y);
    assert r == if x >= y then x - y else x - y + W64;
  }

  /** The second operand of a comparison. */
  function Compared(cmp: MicroOpInst, st: State): Word {
    if cmp.code.CmpRR? then st.Read(cmp.src2) else cmp.immediate
  }

  function Flagged(cmp: MicroOpInst, st: State): State {
    var x, y := st.Read(cmp.src1), Compared(cmp, st);
    st.SetFlags(ArithFlags(SubW(x, y), x, y, true))
  }

  lemma CompareStep(cb: Callbacks, cmp: MicroOpInst, st: State, ip: Option<Word>)
    requires cmp.code.CmpRR? || cmp.code.CmpRI?
    ensures Step(cb, cmp, st, ip) == Done(Flagged(cmp, st), ip)
  {
  }

  lemma JccStep(cb: Callbacks, jcc: MicroOpInst, st: State, ip: Option<Word>)
    requires jcc.code.JccRel?
    ensures Step(cb, jcc, st, ip)
            == Done(st, if Taken(jcc.src2, st.Flags()) then Some(AddW(st.Read(RAX), jcc.immediate)) else ip)
  {
  }

  lemma RunPair(cb: Callbacks, cmp: MicroOpInst, jcc: MicroOpInst, st: State)
    requires (cmp.code.CmpRR? || cmp.code.CmpRI?) && jcc.code.JccRel?
    ensures Run(cb, [cmp, jcc], st, None) == Step(cb, jcc, Flagged(cmp, st), None)
  {
    CompareStep(cb, cmp, st, None);
    assert [cmp, jcc][1..] == [jcc];
    assert EndsBlock(jcc.code);
  }

  /** CmpRR or CmpRI, then JccRel: the successor address is set iff the relation holds, no register
    * other than the flags changes and memory is not touched. */
  lemma CompareAndBranch(cb: Callbacks, cmp: MicroOpInst, jcc: MicroOpInst, st: State)
    requires cmp.code.CmpRR? || cmp.code.CmpRI?
    requires jcc.code.JccRel?
    ensures var x, y := st.Read(cmp.src1), Compared(cmp, st);
            var o := Run(cb, [cmp, jcc], st, None);
            && o.Done?
            && o.ip == (if Relation(jcc.src2, x, y) then Some(AddW(st.Read(RAX), jcc.immediate)) else None)
            && o.st.calls == st.calls
            && forall r: Register :: r != RFlags ==> o.st.Read(r) == st.Read(r)
  {
    RunPair(cb, cmp, jcc, st);
    JccStep(cb, jcc, Flagged(cmp, st), None);
    TakenIffRelation(jcc.src2, st.Read(cmp.src1), Compared(cmp, st));
  }
}

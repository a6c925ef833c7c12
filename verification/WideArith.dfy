/** 128-bit multiplication and division undo each other; signed division after sign extension. */
module WideArith {
  import opened Division
  import opened Words
  import opened Ir
  import opened Machine

  function Op(code: MicroOpCode, src: Register): MicroOpInst {
    MicroOpInst(code, RNone, src, RNone, 0, 8)
  }

  // ---- products and quotients ----------------------------------------------

  lemma ProductFits(a: Word, b: Word)
    ensures 0 <= a * b < W64 * W64
  {
    ProductMonotone(0, a, b);
    ProductMonotone(a, W64 - 1, b);
  }

  lemma QuotientFits(hi: Word, lo: Word, d: Word)
    requires d > 0
    ensures (hi * W64 + lo) / d < W64 <==> hi < d
  {
    var x := hi * W64 + lo;
    var q := x / d;
    assert x == q * d + x % d;
    if hi < d {
      assert x < W64 * d;
    } else {
      assert x >= W64 * d;
    }
    if q >= W64 {
      ProductMonotone(W64, q, d);
    } else {
      ProductMonotone(q, W64 - 1, d);
    }
  }

  // ---- unsigned ------------------------------------------------------------

  lemma RunTwo(cb: Callbacks, first: MicroOpInst, second: MicroOpInst, st: State, next: State, ip: Option<Word>)
    requires Step(cb, first, st, ip) == Done(next, ip) && !EndsBlock(first.code) && !EndsBlock(second.code)
    ensures Run(cb, [first, second], st, ip) == Step(cb, second, next, ip)
  {
    assert [first, second][1..] == [second] && [second][1..] == [];
    var o := Step(cb, second, next, ip);
    assert o.Done? ==> Run(cb, [], o.st, o.ip) == o;
  }

  lemma HalvesOf(p: int)
    requires 0 <= p < W64 * W64
    ensures Low64(p / W64) * W64 + Low64(p) == p
    ensures Low64(p / W64) == p / W64
  {
  }

  lemma MultiplyEffect(st: State, b: Word, p: int)
    requires p == st.Read(RAX) * b
    ensures var m := Multiply(st, b);
            && m.Read(RDX) * W64 + m.Read(RAX) == p && m.calls == st.calls
            && forall r: Register :: r != RAX && r != RDX && r != RFlags ==> m.Read(r) == st.Read(r)
  {
    ProductFits(st.Read(RAX), b);
    HalvesOf(p);
  }

  lemma DivideReads(cb: Callbacks, s: Register, st: State, x: nat, q: nat, r: nat, ip: Option<Word>)
    requires x == st.Read(RDX) * W64 + st.Read(RAX) && st.Read(s) != 0
    requires q == x / st.Read(s) && r == x % st.Read(s)
    ensures Step(cb, Op(DivRR, s), st, ip) == Done(st.Write(RAX, Low64(q)).Write(RDX, r), ip)
  {
    WideStep(cb, Op(DivRR, s), st, ip);
    assert Low64(r) == r;
  }

  /** The outcome of a multiplication that a division undoes: everything but RDX and the flags is as before,
    * or the divisor is zero. */
  ghost predicate Undone(o: Outcome, s: Register, st: State, ip: Option<Word>) {
    if st.Read(s) == 0 then o.Error?
    else
      && o.Done? && o.ip == ip && o.st.calls == st.calls
      && o.st.Read(RAX) == st.Read(RAX) && o.st.Read(RDX) == 0
      && forall r: Register :: r != RDX && r != RFlags ==> o.st.Read(r) == st.Read(r)
  }

  /** Multiplying by a register and dividing by it again restores RAX and leaves RDX zero. The
    * multiplication rewrites RAX, RDX and the flags, so the register must be none of these. */
  lemma MultiplyDivideInvert(cb: Callbacks, s: Register, st: State, ip: Option<Word>)
    requires s != RAX && s != RDX && s != RFlags
    ensures Undone(Run(cb, [Op(MulRR, s), Op(DivRR, s)], st, ip), s, st, ip)
  {
    var p := st.Read(RAX) * st.Read(s);
    var m := MultiplyThen(cb, s, st, p, ip);
    DivideUndoes(cb, s, st, p, m, ip);
  }

  lemma MultiplyThen(cb: Callbacks, s: Register, st: State, p: int, ip: Option<Word>) returns (m: State)
    requires p == st.Read(RAX) * st.Read(s)
    ensures Run(cb, [Op(MulRR, s), Op(DivRR, s)], st, ip) == Step(cb, Op(DivRR, s), m, ip)
    ensures m.Read(RDX) * W64 + m.Read(RAX) == p && m.calls == st.calls
    ensures forall r: Register :: r != RAX && r != RDX && r != RFlags ==> m.Read(r) == st.Read(r)
  {
    m := Multiply(st, st.Read(s));
    WideStep(cb, Op(MulRR, s), st, ip);
    MultiplyEffect(st, st.Read(s), p);
    RunTwo(cb, Op(MulRR, s), Op(DivRR, s), st, m, ip);
  }

  lemma DivideUndoes(cb: Callbacks, s: Register, st: State, p: nat, m: State, ip: Option<Word>)
    requires s != RAX && s != RDX && s != RFlags
    requires p == st.Read(RAX) * st.Read(s) && m.Read(RDX) * W64 + m.Read(RAX) == p && m.calls == st.calls
    requires forall r: Register :: r != RAX && r != RDX && r != RFlags ==> m.Read(r) == st.Read(r)
    ensures Undone(Step(cb, Op(DivRR, s), m, ip), s, st, ip)
  {
    if st.Read(s) == 0 {
      WideStep(cb, Op(DivRR, s), m, ip);
    } else {
      QuotientOfProduct(st.Read(RAX), st.Read(s), p);
      DivideReads(cb, s, m, p, st.Read(RAX), 0, ip);
    }
  }

  lemma QuotientOfProduct(a: nat, b: nat, p: nat)
    requires b > 0 && p == a * b
    ensures p / b == a && p % b == 0
  {
    DivModUnique(p, b, a, 0);
  }

  predicate Divides(x: int, d: int, q: int, r: int) { x == q * d + r }

  predicate LeavesMultiple(x: int, r: int, d: int)
    requires d != 0
  {
    (x - r) % d == 0
  }

  /** DivRR leaves quotient and remainder of the 128-bit dividend exactly when the high half is below
    * the divisor; otherwise the quotient is cut to 64 bits. The remainder is right either way. */
  lemma DivideEuclid(cb: Callbacks, s: Register, st: State, ip: Option<Word>)
    requires st.Read(s) != 0
    ensures var o := Step(cb, Op(DivRR, s), st, ip);
            var dividend := st.Read(RDX) * W64 + st.Read(RAX);
            && o.Done? && 0 <= o.st.Read(RDX) < st.Read(s)
            && LeavesMultiple(dividend, o.st.Read(RDX), st.Read(s))
            && (Divides(dividend, st.Read(s), o.st.Read(RAX), o.st.Read(RDX)) <==> st.Read(RDX) < st.Read(s))
  {
    var q, r := DivideLeaves(cb, s, st, st.Read(RDX) * W64 + st.Read(RAX), ip);
  }

  /** The two results the division computes. */
  predicate Computed(x: nat, d: Word, q: Word, r: Word)
    requires d > 0
  {
    q == Low64(x / d) && r == x % d
  }

  lemma DivideComputes(cb: Callbacks, s: Register, st: State, x: nat, ip: Option<Word>) returns (q: Word, r: Word)
    requires st.Read(s) != 0 && x == st.Read(RDX) * W64 + st.Read(RAX)
    ensures Step(cb, Op(DivRR, s), st, ip) == Done(st.Write(RAX, q).Write(RDX, r), ip)
    ensures Computed(x, st.Read(s), q, r)
  {
    var d: int := st.Read(s);
    q, r := Low64(x / d), x % d;
    DivideReads(cb, s, st, x, x / d, x % d, ip);
  }

  lemma DivideLeaves(cb: Callbacks, s: Register, st: State, x: nat, ip: Option<Word>) returns (q: Word, r: Word)
    requires st.Read(s) != 0 && x == st.Read(RDX) * W64 + st.Read(RAX)
    ensures Step(cb, Op(DivRR, s), st, ip) == Done(st.Write(RAX, q).Write(RDX, r), ip)
    ensures r < st.Read(s) && LeavesMultiple(x, r, st.Read(s))
    ensures Divides(x, st.Read(s), q, r) <==> st.Read(RDX) < st.Read(s)
  {
    q, r := DivideComputes(cb, s, st, x, ip);
    EuclidOfHalves(st.Read(RDX), st.Read(RAX), st.Read(s), x, q, r);
  }

  lemma EuclidOfHalves(hi: Word, lo: Word, d: Word, x: nat, q: Word, r: Word)
    requires d > 0 && x == hi * W64 + lo && Computed(x, d, q, r)
    ensures r < d && LeavesMultiple(x, r, d)
    ensures Divides(x, d, q, r) <==> hi < d
  {
    QuotientFits(hi, lo, d);
    CutQuotient(x, d);
  }

  /** A quotient cut to 64 bits still satisfies the division identity only if nothing was cut. */
  lemma CutQuotient(x: nat, d: Word)
    requires d > 0
    ensures (x - x % d) % d == 0
    ensures Low64(x / d) * d + x % d == x <==> x / d < W64
  {
    var q, r := x / d, x % d;
    assert x == q * d + r;
    DivModUnique(x - r, d, q, 0);
    CutProduct(q, d);
  }

  lemma CutProduct(q: nat, d: Word)
    requires d > 0
    ensures Low64(q) * d == q * d <==> q < W64
  {
    if q >= W64 {
      StrictProduct(Low64(q), q, d);
    } else {
      assert Low64(q) == q;
    }
  }

  /** Division that truncates toward zero, by what it means rather than how it is computed. */
  predicate Truncates(a: int, d: int, q: int, r: int) {
    && a == q * d + r
    && -(if d < 0 then -d else d) < r < (if d < 0 then -d else d)
    && (r == 0 || (r > 0 <==> a > 0))
  }

  lemma NegatedProduct(q: int, d: int)
    ensures (-q) * d == -(q * d) && d * (-q) == -(d * q) && d * q == q * d
  {
  }

  lemma EuclidParts(x: nat, d: int)
    requires d != 0
    ensures x == d * (x / d) + x % d && 0 <= x % d < (if d < 0 then -d else d)
    ensures x % d <= x
  {
  }

  lemma TruncDivTruncates(a: int, d: int)
    requires d != 0
    ensures Truncates(a, d, TruncDiv(a, d), TruncMod(a, d))
  {
    var x := if a >= 0 then a else -a;
    var q, r := x / d, x % d;
    EuclidParts(x, d);
    NegatedProduct(q, d);
    assert TruncMod(a, d) == if a >= 0 then r else -r;
  }

  lemma MagnitudeGrows(q: int, d: int, p: int)
    requires p == q * d && (d >= 2 || d <= -2)
    ensures p >= 2 * q || p <= -2 * q
    ensures p >= -2 * q || p <= 2 * q
    ensures (p >= 2 * q && p >= -2 * q) || (p <= 2 * q && p <= -2 * q)
  {
    var size := if d < 0 then -d else d;
    var t := if d < 0 then -q else q;
    assert t * size == p by { NegatedProduct(q, d); NegatedProduct(-q, d); }
    if t >= 0 {
      ProductMonotone(2, size, t);
    } else {
      ProductMonotone(2, size, -t);
      NegatedProduct(t, size);
    }
  }

  lemma QuotientRange(a: Word, d: Word)
    requires d != 0
    ensures var q, r := TruncDiv(Signed(a), Signed(d)), TruncMod(Signed(a), Signed(d));
            && -HALF64 <= r < HALF64
            && (-HALF64 <= q < HALF64 <==> !(a == HALF64 && d == W64 - 1))
            && (a == HALF64 && d == W64 - 1 ==> q == HALF64 && r == 0)
  {
    var x, y := Signed(a), Signed(d);
    TruncDivTruncates(x, y);
    if y != 1 && y != -1 {
      MagnitudeGrows(TruncDiv(x, y), y, TruncDiv(x, y) * y);
    }
  }

  lemma SignedOfLow(x: int)
    requires -HALF64 <= x < HALF64
    ensures Signed(Low64(x)) == x
  {
    assert Low64(x) == if x >= 0 then x else x + W64;
  }

  /** IdivRR once the 128-bit dividend is known to be a 64-bit number. */
  lemma SignedDivideNarrow(st: State, a: Word, d: Word, ip: Option<Word>)
    requires d != 0 && SignedDividend(st.Read(RDX), st.Read(RAX)) == Signed(a)
    ensures var o := SignedDivide(st, d, ip);
            && o.Done? && o.ip == ip
            && Signed(o.st.Read(RDX)) == TruncMod(Signed(a), Signed(d))
            && Signed(o.st.Read(RAX))
               == (if a == HALF64 && d == W64 - 1 then -HALF64 else TruncDiv(Signed(a), Signed(d)))
  {
    QuotientRange(a, d);
    var q, r := TruncDiv(Signed(a), Signed(d)), TruncMod(Signed(a), Signed(d));
    SignedOfLow(r);
    if -HALF64 <= q < HALF64 {
      SignedOfLow(q);
    }
  }

  lemma TruncatesUnlessOverflow(a: int, d: int)
    requires d != 0 && -HALF64 <= a < HALF64
    ensures Truncates(a, d, TruncDiv(a, d), TruncMod(a, d))
    ensures a == -HALF64 && d == -1 ==> TruncMod(a, d) == 0 && !Truncates(a, d, -HALF64, 0)
  {
    TruncDivTruncates(a, d);
  }

  function Extended(st: State): State {
    st.Write(RDX, if TopBit(st.Read(RAX)) then W64 - 1 else 0)
  }

  lemma ExtendedDividend(st: State)
    ensures SignedDividend(Extended(st).Read(RDX), Extended(st).Read(RAX)) == Signed(st.Read(RAX))
  {
  }

  lemma IdivDivides(cb: Callbacks, s: Register, st: State, ip: Option<Word>)
    ensures Step(cb, Op(IdivRR, s), st, ip) == SignedDivide(st, st.Read(s), ip)
  {
    WideStep(cb, Op(IdivRR, s), st, ip);
  }

  lemma ExtendThen(cb: Callbacks, second: MicroOpInst, st: State, ip: Option<Word>)
    requires !EndsBlock(second.code)
    ensures Run(cb, [Op(Cqo, RNone), second], st, ip) == Step(cb, second, Extended(st), ip)
  {
    WideStep(cb, Op(Cqo, RNone), st, ip);
    RunTwo(cb, Op(Cqo, RNone), second, st, Extended(st), ip);
  }

  /** Cqo then IdivRR is signed division truncating toward zero, for every divisor register except
    * RDX, which Cqo overwrites: the remainder always, the quotient unless the true quotient 2^63
    * does not exist (the most negative number divided by -1). */
  lemma SignExtendDivide(cb: Callbacks, s: Register, st: State, ip: Option<Word>)
    requires s != RDX
    ensures var o := Run(cb, [Op(Cqo, RNone), Op(IdivRR, s)], st, ip);
            var a, d := st.Read(RAX), st.Read(s);
            if d == 0 then o.Error?
            else
              && o.Done? && o.ip == ip
              && Signed(o.st.Read(RDX)) == TruncMod(Signed(a), Signed(d))
              && (Truncates(Signed(a), Signed(d), Signed(o.st.Read(RAX)), Signed(o.st.Read(RDX)))
                  <==> !(a == HALF64 && d == W64 - 1))
  {
    var a, d := st.Read(RAX), st.Read(s);
    var extended := Extended(st);
    ExtendThen(cb, Op(IdivRR, s), st, ip);
    IdivDivides(cb, s, extended, ip);
    ExtendedDividend(st);
    if d != 0 {
      assert Signed(d) != 0;
      TruncatesUnlessOverflow(Signed(a), Signed(d));
      SignedDivideNarrow(extended, a, d, ip);
    }
  }

  /** The dividend the instruction is meant to divide: the two halves as one signed 128-bit number. */
  function WideSigned(hi: Word, lo: Word): int {
    var high: int := Signed(hi);
    high * W64 + lo
  }

  /** Joining the halves after sign-extending the low one loses nothing exactly when the low half is not
    * negative or the high half is all ones. */
  lemma DividendExact(hi: Word, lo: Word)
    ensures SignedDividend(hi, lo) == WideSigned(hi, lo) <==> !TopBit(lo) || hi == W64 - 1
    ensures -HALF64 * W64 <= SignedDividend(hi, lo) < HALF64 * W64
  {
  }

  predicate Fits64(x: int) { -HALF64 <= x < HALF64 }

  /** The cases in which IDIV leaves the truncated quotient and the remainder of its 128-bit dividend. */
  predicate SignedDivideRight(hi: Word, lo: Word, d: Word)
    requires d != 0
  {
    || ((!TopBit(lo) || hi == W64 - 1) && Fits64(TruncDiv(WideSigned(hi, lo), Signed(d))))
    || (hi == 0 && lo == HALF64 && d == W64 - 1)
  }

  lemma SignedOfLowIff(x: int)
    ensures Signed(Low64(x)) == x <==> Fits64(x)
  {
    if Fits64(x) {
      SignedOfLow(x);
    }
  }

  lemma ProductsApart(s: int, q: int, d: int)
    requires d != 0
    ensures s * d - q * d == (s - q) * d
    ensures s * d == q * d <==> s == q
  {
    NegatedProduct(s - q, d);
    if s != q {
      if d > 0 {
        MultipleApart(s - q, d);
      } else {
        MultipleApart(s - q, -d);
        NegatedProduct(s - q, -d);
      }
    }
  }

  /** With the dividend joined exactly, the 64-bit quotient is right when the true one fits. */
  lemma ExactDividendRight(x: int, d: int)
    requires d != 0
    ensures Truncates(x, d, Signed(Low64(TruncDiv(x, d))), TruncMod(x, d)) <==> Fits64(TruncDiv(x, d))
  {
    TruncDivTruncates(x, d);
    SignedOfLowIff(TruncDiv(x, d));
    ProductsApart(Signed(Low64(TruncDiv(x, d))), TruncDiv(x, d), d);
  }

  /** The quotient of a negative 64-bit number fits in 64 bits unless it is the least one by -1. */
  lemma NarrowQuotientFits(lo: Word, d: Word)
    requires d != 0
    ensures Fits64(TruncDiv(Signed(lo), Signed(d))) <==> !(lo == HALF64 && d == W64 - 1)
    ensures lo == HALF64 && d == W64 - 1 ==>
              TruncDiv(Signed(lo), Signed(d)) == HALF64 && TruncMod(Signed(lo), Signed(d)) == 0
  {
    QuotientRange(lo, d);
  }

  /** With the high half lost, the result is right in one case only, where two mistakes cancel. */
  lemma LostHighHalf(hi: Word, lo: Word, d: Word)
    requires d != 0 && TopBit(lo) && hi != W64 - 1
    ensures var q, r := TruncDiv(Signed(lo), Signed(d)), TruncMod(Signed(lo), Signed(d));
            Truncates(WideSigned(hi, lo), Signed(d), Signed(Low64(q)), r) <==> hi == 0 && lo == HALF64 && d == W64 - 1
  {
    var y := Signed(d);
    var q, r := TruncDiv(Signed(lo), y), TruncMod(Signed(lo), y);
    TruncDivTruncates(Signed(lo), y);
    NarrowQuotientFits(lo, d);
    SignedOfLowIff(q);
    DividendExact(hi, lo);
  }

  lemma RemainderFits(x: int, d: Word)
    requires d != 0
    ensures Fits64(TruncMod(x, Signed(d)))
  {
    TruncDivTruncates(x, Signed(d));
  }

  /**
   * IdivRR by itself, for every dividend and divisor: it errs exactly for a zero divisor and panics
   * exactly for the least 128-bit dividend by -1; otherwise it leaves the truncated quotient and the
   * remainder of RDX:RAX exactly in the cases SignedDivideRight lists.
   */
  lemma SignedDivideExact(cb: Callbacks, s: Register, st: State, ip: Option<Word>)
    ensures var o := Step(cb, Op(IdivRR, s), st, ip);
            var hi, lo, d := st.Read(RDX), st.Read(RAX), st.Read(s);
            && (o.Error? <==> d == 0)
            && (o.Panic? <==> hi == HALF64 && lo == 0 && d == W64 - 1)
            && (o.Done? ==> o.ip == ip && d != 0
                            && (Truncates(WideSigned(hi, lo), Signed(d), Signed(o.st.Read(RAX)), Signed(o.st.Read(RDX)))
                                <==> SignedDivideRight(hi, lo, d)))
  {
    IdivDivides(cb, s, st, ip);
    var hi, lo, d := st.Read(RDX), st.Read(RAX), st.Read(s);
    if d != 0 {
      var x := SignedDividend(hi, lo);
      DividendExact(hi, lo);
      RemainderFits(x, d);
      SignedOfLow(TruncMod(x, Signed(d)));
      if !TopBit(lo) || hi == W64 - 1 {
        ExactDividendRight(x, Signed(d));
      } else {
        LostHighHalf(hi, lo, d);
      }
    }
  }
}

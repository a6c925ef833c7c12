/**
 * Wide arithmetic from limbs: an ADD followed by ADCs, or a SUB followed by SBBs.
 * ADC and SBB compute CF from the two operands alone and ignore the carry that came in, so the
 * carry is lost in exactly one situation, which is characterised here.
 */
module MultiLimb {
  import opened Words
  import opened Ir
  import opened Machine

  /** One limb operation: dst := x (+/-) y (+/-) carry. */
  datatype Limb = Limb(dst: Register, x: Register, y: Register)

  /** Little-endian value of a list of digits. */
  function Value(digits: seq<int>): int {
    if digits == [] then 0 else digits[0] + W64 * Value(digits[1..])
  }

  function CarryOps(isSub: bool, limbs: seq<Limb>): seq<MicroOpInst> {
    if limbs == [] then []
    else [LimbOp(if isSub then SbbRR else AdcRR, limbs[0])]
         + CarryOps(isSub, limbs[1..])
  }

  /** AddRR then AdcRR for every further limb, or SubRR then SbbRR. */
  function Chain(isSub: bool, limbs: seq<Limb>): seq<MicroOpInst>
    requires limbs != []
  {
    [LimbOp(if isSub then SubRR else AddRR, limbs[0])]
    + CarryOps(isSub, limbs[1..])
  }

  /** Destinations are ordinary registers, and no destination is used again by a later limb;
    * the flags register carries the carry, so only the first limb may read it. */
  predicate Layout(limbs: seq<Limb>) {
    && (forall i :: 0 <= i < |limbs| ==> limbs[i].dst < 32)
    && (forall i, j :: 0 <= i < j < |limbs| ==>
          limbs[i].dst != limbs[j].dst && limbs[i].dst != limbs[j].x && limbs[i].dst != limbs[j].y)
    && (forall j :: 1 <= j < |limbs| ==> limbs[j].x != RFlags && limbs[j].y != RFlags)
  }

  function Xs(limbs: seq<Limb>, st: State): (r: seq<Word>)
    ensures |r| == |limbs|
  {
    seq(|limbs|, i requires 0 <= i < |limbs| => st.Read(limbs[i].x))
  }

  function Ys(limbs: seq<Limb>, st: State): (r: seq<Word>)
    ensures |r| == |limbs|
  {
    seq(|limbs|, i requires 0 <= i < |limbs| => st.Read(limbs[i].y))
  }

  /** The carry or borrow the machine records for a limb: the incoming one plays no part. */
  function Generated(isSub: bool, x: Word, y: Word): int {
    if (if isSub then x < y else x + y >= W64) then 1 else 0
  }

  /** A limb that must pass an incoming carry on: all ones for addition, equal for subtraction. */
  predicate Propagates(isSub: bool, x: Word, y: Word) {
    if isSub then x == y else x + y == W64 - 1
  }

  function Digit(isSub: bool, x: Word, y: Word, carry: int): Word {
    if isSub then (x - y - carry) % W64 else (x + y + carry) % W64
  }

  /** What the machine leaves behind: one digit per limb, then the final CF (negative for a borrow). */
  function MachineDigits(isSub: bool, xs: seq<Word>, ys: seq<Word>, carry: int): (r: seq<int>)
    requires |xs| == |ys| && 0 <= carry <= 1
    ensures |r| == |xs| + 1
  {
    if xs == [] then [if isSub then -carry else carry]
    else
      [Digit(isSub, xs[0], ys[0], carry)]
      + MachineDigits(isSub, xs[1..], ys[1..], Generated(isSub, xs[0], ys[0]))
  }

  function Sum(isSub: bool, xs: seq<Word>, ys: seq<Word>, carry: int): int {
    if isSub then Value(xs) - Value(ys) - carry else Value(xs) + Value(ys) + carry
  }

  /** The carry the machine delivers to limb `i`. */
  function CarryInto(isSub: bool, xs: seq<Word>, ys: seq<Word>, carry: int, i: nat): int
    requires |xs| == |ys| && i <= |xs|
  {
    if i == 0 then carry else Generated(isSub, xs[i - 1], ys[i - 1])
  }

  /** Some limb has a carry coming in and must pass it on. */
  predicate LosesCarry(isSub: bool, xs: seq<Word>, ys: seq<Word>, carry: int)
    requires |xs| == |ys|
  {
    exists i :: 0 <= i < |xs| && Propagates(isSub, xs[i], ys[i]) && CarryInto(isSub, xs, ys, carry, i) == 1
  }

  /** The machine's total is right modulo 2^64 whatever happens further up. */
  lemma LowDigit(isSub: bool, xs: seq<Word>, ys: seq<Word>, carry: int)
    requires |xs| == |ys| && 0 <= carry <= 1
    ensures exists k :: Value(MachineDigits(isSub, xs, ys, carry)) == Sum(isSub, xs, ys, carry) + W64 * k
  {
    var d := MachineDigits(isSub, xs, ys, carry);
    if xs == [] {
      assert d[1..] == [];
      assert Value(d) == Sum(isSub, xs, ys, carry) + W64 * 0;
    } else {
      var s := if isSub then xs[0] - ys[0] - carry else xs[0] + ys[0] + carry;
      var rest := if isSub then Value(xs[1..]) - Value(ys[1..]) else Value(xs[1..]) + Value(ys[1..]);
      assert Value(d) == s % W64 + W64 * Value(d[1..]);
      assert s == s % W64 + W64 * (s / W64);
      assert Value(d) == Sum(isSub, xs, ys, carry) + W64 * (Value(d[1..]) - s / W64 - rest);
    }
  }

  lemma LosesCarryTail(isSub: bool, xs: seq<Word>, ys: seq<Word>, carry: int)
    requires |xs| == |ys| > 0
    ensures LosesCarry(isSub, xs, ys, carry)
            <==> (carry == 1 && Propagates(isSub, xs[0], ys[0]))
                 || LosesCarry(isSub, xs[1..], ys[1..], Generated(isSub, xs[0], ys[0]))
  {
    var xt, yt, c := xs[1..], ys[1..], Generated(isSub, xs[0], ys[0]);
    forall i | 0 <= i < |xt|
      ensures Propagates(isSub, xt[i], yt[i]) == Propagates(isSub, xs[i + 1], ys[i + 1])
      ensures CarryInto(isSub, xt, yt, c, i) == CarryInto(isSub, xs, ys, carry, i + 1)
    {
    }
    if LosesCarry(isSub, xs, ys, carry) {
      var i :| 0 <= i < |xs| && Propagates(isSub, xs[i], ys[i]) && CarryInto(isSub, xs, ys, carry, i) == 1;
      if i > 0 {
        assert Propagates(isSub, xt[i - 1], yt[i - 1]) && CarryInto(isSub, xt, yt, c, i - 1) == 1;
      }
    }
    if LosesCarry(isSub, xt, yt, c) {
      var i :| 0 <= i < |xt| && Propagates(isSub, xt[i], yt[i]) && CarryInto(isSub, xt, yt, c, i) == 1;
      assert Propagates(isSub, xs[i + 1], ys[i + 1]) && CarryInto(isSub, xs, ys, carry, i + 1) == 1;
    }
    if carry == 1 && Propagates(isSub, xs[0], ys[0]) {
      assert CarryInto(isSub, xs, ys, carry, 0) == 1;
    }
  }

  /** A limb that fails to pass its carry on makes the whole result wrong, whatever follows. */
  lemma LostCarryIsWrong(isSub: bool, xs: seq<Word>, ys: seq<Word>)
    requires |xs| == |ys| > 0 && Propagates(isSub, xs[0], ys[0])
    ensures Value(MachineDigits(isSub, xs, ys, 1)) != Sum(isSub, xs, ys, 1)
  {
    var d := MachineDigits(isSub, xs, ys, 1);
    LowDigit(isSub, xs[1..], ys[1..], 0);
    var k :| Value(d[1..]) == Sum(isSub, xs[1..], ys[1..], 0) + W64 * k;
    assert d[0] == if isSub then W64 - 1 else 0;
    assert Value(d) - Sum(isSub, xs, ys, 1) == W64 * (W64 * k + (if isSub then 1 else -1));
  }

  lemma DigitStep(isSub: bool, x: Word, y: Word, carry: int)
    requires 0 <= carry <= 1 && !(carry == 1 && Propagates(isSub, x, y))
    ensures if isSub then Digit(isSub, x, y, carry) - W64 * Generated(isSub, x, y) == x - y - carry
            else Digit(isSub, x, y, carry) + W64 * Generated(isSub, x, y) == x + y + carry
  {
  }

  /** The digits and the final carry denote the true sum or difference iff no limb loses a carry. */
  lemma {:induction false} DigitsExact(isSub: bool, xs: seq<Word>, ys: seq<Word>, carry: int)
    requires |xs| == |ys| && 0 <= carry <= 1
    ensures Value(MachineDigits(isSub, xs, ys, carry)) == Sum(isSub, xs, ys, carry)
            <==> !LosesCarry(isSub, xs, ys, carry)
  {
    var d := MachineDigits(isSub, xs, ys, carry);
    if xs == [] {
      assert d[1..] == [];
    } else {
      var xt, yt, c := xs[1..], ys[1..], Generated(isSub, xs[0], ys[0]);
      LosesCarryTail(isSub, xs, ys, carry);
      if carry == 1 && Propagates(isSub, xs[0], ys[0]) {
        LostCarryIsWrong(isSub, xs, ys);
      } else {
        DigitsExact(isSub, xt, yt, c);
        DigitStep(isSub, xs[0], ys[0], carry);
        assert d[1..] == MachineDigits(isSub, xt, yt, c);
      }
    }
  }

  // ---- the machine computes these digits -----------------------------------

  /** The destination registers and CF hold the expected digits; nothing else but flags changed. */
  ghost predicate Holds(o: Outcome, isSub: bool, limbs: seq<Limb>, digits: seq<int>, st: State, ip: Option<Word>)
    requires |digits| == |limbs| + 1
  {
    && o.Done? && o.ip == ip && o.st.calls == st.calls
    && (forall i :: 0 <= i < |limbs| ==> o.st.Read(limbs[i].dst) == digits[i])
    && (o.st.Flags() % 2) == (if isSub then -digits[|limbs|] else digits[|limbs|])
    && (forall r: Register :: r != RFlags && (forall i :: 0 <= i < |limbs| ==> r != limbs[i].dst)
                              ==> o.st.Read(r) == st.Read(r))
  }

  function LimbOp(code: MicroOpCode, limb: Limb): MicroOpInst {
    MicroOpInst(code, limb.dst, limb.x, limb.y, 0, 8)
  }

  lemma DigitOfWraps(x: Word, y: Word, carry: Word)
    requires carry <= 1
    ensures AddW(AddW(x, y), carry) == Digit(false, x, y, carry)
    ensures SubW(SubW(x, y), carry) == Digit(true, x, y, carry)
  {
    assert AddW(x, y) == if x + y < W64 then x + y else x + y - W64;
    assert SubW(x, y) == if x < y then x - y + W64 else x - y;
  }

  lemma CarryOfFlags(result: Word, x: Word, y: Word, isSub: bool)
    ensures ArithFlags(result, x, y, isSub) % 2 == Generated(isSub, x, y)
  {
  }

  predicate IsLimbCode(code: MicroOpCode, isSub: bool, carry: int, st: State) {
    || (code == (if isSub then SubRR else AddRR) && carry == 0)
    || (code == (if isSub then SbbRR else AdcRR) && carry == st.Flags() % 2)
  }

  /** The state after one limb operation: its digit and the generated carry. */
  function AfterLimb(limb: Limb, isSub: bool, carry: int, st: State): State {
    var x, y := st.Read(limb.x), st.Read(limb.y);
    Arith(st, limb.dst, Digit(isSub, x, y, carry), x, y, isSub)
  }

  lemma AddOfLimb(limb: Limb, st: State)
    ensures StepArith(LimbOp(AddRR, limb), st) == AfterLimb(limb, false, 0, st)
  {
  }

  lemma SubOfLimb(limb: Limb, st: State)
    ensures StepArith(LimbOp(SubRR, limb), st) == AfterLimb(limb, true, 0, st)
  {
  }

  lemma AdcOfLimb(limb: Limb, st: State)
    ensures StepArith(LimbOp(AdcRR, limb), st) == AfterLimb(limb, false, st.Flags() % 2, st)
  {
    DigitOfWraps(st.Read(limb.x), st.Read(limb.y), st.Flags() % 2);
  }

  lemma SbbOfLimb(limb: Limb, st: State)
    ensures StepArith(LimbOp(SbbRR, limb), st) == AfterLimb(limb, true, st.Flags() % 2, st)
  {
    DigitOfWraps(st.Read(limb.x), st.Read(limb.y), st.Flags() % 2);
  }

  lemma ArithOfLimb(code: MicroOpCode, limb: Limb, isSub: bool, carry: int, st: State)
    requires IsLimbCode(code, isSub, carry, st)
    ensures StepArith(LimbOp(code, limb), st) == AfterLimb(limb, isSub, carry, st)
  {
    if code == AddRR {
      AddOfLimb(limb, st);
    } else if code == SubRR {
      SubOfLimb(limb, st);
    } else if code == AdcRR {
      AdcOfLimb(limb, st);
    } else {
      SbbOfLimb(limb, st);
    }
  }

  lemma LimbStep(cb: Callbacks, code: MicroOpCode, limb: Limb, isSub: bool, carry: int, st: State, ip: Option<Word>)
    requires IsLimbCode(code, isSub, carry, st)
    ensures Step(cb, LimbOp(code, limb), st, ip) == Done(AfterLimb(limb, isSub, carry, st), ip)
  {
    ArithStep(cb, LimbOp(code, limb), st, ip);
    ArithOfLimb(code, limb, isSub, carry, st);
  }

  /** Executing one limb operation and then the rest; nothing but the destination and the flags changes. */
  lemma LimbRun(cb: Callbacks, code: MicroOpCode, limb: Limb, isSub: bool, carry: int,
                rest: seq<MicroOpInst>, st: State, ip: Option<Word>) returns (next: State)
    requires limb.dst < 32 && IsLimbCode(code, isSub, carry, st)
    ensures Run(cb, [LimbOp(code, limb)] + rest, st, ip) == Run(cb, rest, next, ip)
    ensures && next.calls == st.calls
            && next.Read(limb.dst) == Digit(isSub, st.Read(limb.x), st.Read(limb.y), carry)
            && next.Flags() % 2 == Generated(isSub, st.Read(limb.x), st.Read(limb.y))
            && forall r: Register :: r != RFlags && r != limb.dst ==> next.Read(r) == st.Read(r)
  {
    LimbStep(cb, code, limb, isSub, carry, st, ip);
    next := AfterLimb(limb, isSub, carry, st);
    CarryOfFlags(Digit(isSub, st.Read(limb.x), st.Read(limb.y), carry), st.Read(limb.x), st.Read(limb.y), isSub);
    assert ([LimbOp(code, limb)] + rest)[1..] == rest;
  }

  lemma ShiftedReads(limbs: seq<Limb>, st: State, next: State)
    requires limbs != [] && Layout(limbs)
    requires forall r: Register :: r != RFlags && r != limbs[0].dst ==> next.Read(r) == st.Read(r)
    ensures Layout(limbs[1..])
    ensures Xs(limbs[1..], next) == Xs(limbs, st)[1..] && Ys(limbs[1..], next) == Ys(limbs, st)[1..]
  {
    var t := limbs[1..];
    forall i, j | 0 <= i < j < |t|
      ensures t[i].dst != t[j].dst && t[i].dst != t[j].x && t[i].dst != t[j].y
    {
      assert limbs[i + 1].dst != limbs[j + 1].dst;
    }
    forall i | 0 <= i < |t|
      ensures next.Read(t[i].x) == st.Read(limbs[i + 1].x) && next.Read(t[i].y) == st.Read(limbs[i + 1].y)
    {
      assert limbs[0].dst != limbs[i + 1].x && limbs[0].dst != limbs[i + 1].y;
    }
  }

  /** Gluing one limb onto the result for the rest. */
  lemma HoldsCons(o: Outcome, isSub: bool, limbs: seq<Limb>, digits: seq<int>, st: State, next: State, ip: Option<Word>)
    requires limbs != [] && Layout(limbs) && |digits| == |limbs| + 1
    requires Holds(o, isSub, limbs[1..], digits[1..], next, ip)
    requires next.calls == st.calls && next.Read(limbs[0].dst) == digits[0]
    requires forall r: Register :: r != RFlags && r != limbs[0].dst ==> next.Read(r) == st.Read(r)
    ensures Holds(o, isSub, limbs, digits, st, ip)
  {
    KeptByRest(o, isSub, limbs, digits[1..], next, ip);
    forall i | 0 <= i < |limbs| ensures o.st.Read(limbs[i].dst) == digits[i] {
      if i > 0 {
        assert o.st.Read(limbs[1..][i - 1].dst) == digits[1..][i - 1];
      }
    }
  }

  /** The further limbs keep the first destination, and every register that is not a destination. */
  lemma KeptByRest(o: Outcome, isSub: bool, limbs: seq<Limb>, digits: seq<int>, next: State, ip: Option<Word>)
    requires limbs != [] && Layout(limbs) && |digits| == |limbs|
    requires Holds(o, isSub, limbs[1..], digits, next, ip)
    ensures o.st.Read(limbs[0].dst) == next.Read(limbs[0].dst)
    ensures forall r: Register :: r != RFlags && (forall i :: 0 <= i < |limbs| ==> r != limbs[i].dst)
                                  ==> o.st.Read(r) == next.Read(r)
  {
    var t := limbs[1..];
    forall i | 0 <= i < |t| ensures limbs[0].dst != t[i].dst {
      assert limbs[0].dst != limbs[i + 1].dst;
    }
    forall r: Register | r != RFlags && (forall i :: 0 <= i < |limbs| ==> r != limbs[i].dst)
      ensures o.st.Read(r) == next.Read(r)
    {
      forall i | 0 <= i < |t| ensures r != t[i].dst {
        assert r != limbs[i + 1].dst;
      }
    }
  }

  lemma {:induction false} CarryOpsRun(cb: Callbacks, isSub: bool, limbs: seq<Limb>, st: State, ip: Option<Word>)
    requires Layout(limbs)
    requires limbs != [] ==> limbs[0].x != RFlags && limbs[0].y != RFlags
    ensures Holds(Run(cb, CarryOps(isSub, limbs), st, ip), isSub, limbs,
                  MachineDigits(isSub, Xs(limbs, st), Ys(limbs, st), st.Flags() % 2), st, ip)
    decreases |limbs|, 1
  {
    if limbs != [] {
      FirstThenRest(cb, if isSub then SbbRR else AdcRR, isSub, limbs, st.Flags() % 2, st, ip);
    }
  }

  /** The first limb by itself, then the others by induction. */
  lemma {:induction false} FirstThenRest(cb: Callbacks, code: MicroOpCode, isSub: bool, limbs: seq<Limb>, carry: int,
                                         st: State, ip: Option<Word>)
    requires limbs != [] && Layout(limbs)
    requires IsLimbCode(code, isSub, carry, st)
    ensures Holds(Run(cb, [LimbOp(code, limbs[0])] + CarryOps(isSub, limbs[1..]), st, ip), isSub, limbs,
                  MachineDigits(isSub, Xs(limbs, st), Ys(limbs, st), carry), st, ip)
    decreases |limbs|, 0
  {
    var next := LimbRun(cb, code, limbs[0], isSub, carry, CarryOps(isSub, limbs[1..]), st, ip);
    ShiftedReads(limbs, st, next);
    CarryOpsRun(cb, isSub, limbs[1..], next, ip);
    OneMoreLimb(Run(cb, CarryOps(isSub, limbs[1..]), next, ip), isSub, limbs, carry, st, next, ip);
  }

  lemma OneMoreLimb(o: Outcome, isSub: bool, limbs: seq<Limb>, carry: int, st: State, next: State, ip: Option<Word>)
    requires limbs != [] && Layout(limbs) && 0 <= carry <= 1
    requires next.calls == st.calls
    requires next.Read(limbs[0].dst) == Digit(isSub, st.Read(limbs[0].x), st.Read(limbs[0].y), carry)
    requires next.Flags() % 2 == Generated(isSub, st.Read(limbs[0].x), st.Read(limbs[0].y))
    requires forall r: Register :: r != RFlags && r != limbs[0].dst ==> next.Read(r) == st.Read(r)
    requires Holds(o, isSub, limbs[1..],
                   MachineDigits(isSub, Xs(limbs[1..], next), Ys(limbs[1..], next), next.Flags() % 2), next, ip)
    ensures Holds(o, isSub, limbs, MachineDigits(isSub, Xs(limbs, st), Ys(limbs, st), carry), st, ip)
  {
    ShiftedReads(limbs, st, next);
    var digits := TailDigits(isSub, limbs, carry, st, next);
    HoldsCons(o, isSub, limbs, digits, st, next, ip);
  }

  /** The digits of the further limbs are those of a chain that starts behind the first. */
  lemma TailDigits(isSub: bool, limbs: seq<Limb>, carry: int, st: State, next: State) returns (digits: seq<int>)
    requires limbs != [] && 0 <= carry <= 1
    requires Xs(limbs[1..], next) == Xs(limbs, st)[1..] && Ys(limbs[1..], next) == Ys(limbs, st)[1..]
    requires next.Flags() % 2 == Generated(isSub, st.Read(limbs[0].x), st.Read(limbs[0].y))
    ensures digits == MachineDigits(isSub, Xs(limbs, st), Ys(limbs, st), carry)
    ensures digits[0] == Digit(isSub, st.Read(limbs[0].x), st.Read(limbs[0].y), carry)
    ensures digits[1..] == MachineDigits(isSub, Xs(limbs[1..], next), Ys(limbs[1..], next), next.Flags() % 2)
  {
    digits := MachineDigits(isSub, Xs(limbs, st), Ys(limbs, st), carry);
  }

  /**
   * For every chain of n >= 1 limbs: the destinations and the final CF hold the exact sum (or
   * difference, the borrow counting negatively) of the two numbers read at the start, if and only
   * if no limb must pass on a carry that the limb below generated. The condition is on inputs only.
   */
  lemma ChainExact(cb: Callbacks, isSub: bool, limbs: seq<Limb>, st: State, ip: Option<Word>) returns (digits: seq<int>)
    requires limbs != [] && Layout(limbs)
    ensures |digits| == |limbs| + 1
    ensures Holds(Run(cb, Chain(isSub, limbs), st, ip), isSub, limbs, digits, st, ip)
    ensures var xs, ys := Xs(limbs, st), Ys(limbs, st);
            Value(digits) == (if isSub then Value(xs) - Value(ys) else Value(xs) + Value(ys))
            <==> NoCarryMeetsPropagation(isSub, xs, ys)
  {
    digits := MachineDigits(isSub, Xs(limbs, st), Ys(limbs, st), 0);
    FirstThenRest(cb, if isSub then SubRR else AddRR, isSub, limbs, 0, st, ip);
    DigitsOfChain(isSub, Xs(limbs, st), Ys(limbs, st));
  }

  /** No limb must pass on a carry that the limb below it generates. */
  predicate NoCarryMeetsPropagation(isSub: bool, xs: seq<Word>, ys: seq<Word>)
    requires |xs| == |ys|
  {
    forall i :: 1 <= i < |xs| ==> !(Generated(isSub, xs[i - 1], ys[i - 1]) == 1 && Propagates(isSub, xs[i], ys[i]))
  }

  lemma DigitsOfChain(isSub: bool, xs: seq<Word>, ys: seq<Word>)
    requires |xs| == |ys|
    ensures Value(MachineDigits(isSub, xs, ys, 0)) == (if isSub then Value(xs) - Value(ys) else Value(xs) + Value(ys))
            <==> NoCarryMeetsPropagation(isSub, xs, ys)
  {
    DigitsExact(isSub, xs, ys, 0);
    NoCarryIntoFirst(isSub, xs, ys);
  }

  lemma NoCarryIntoFirst(isSub: bool, xs: seq<Word>, ys: seq<Word>)
    requires |xs| == |ys|
    ensures !LosesCarry(isSub, xs, ys, 0) <==> NoCarryMeetsPropagation(isSub, xs, ys)
  {
    if i :| 1 <= i < |xs| && Generated(isSub, xs[i - 1], ys[i - 1]) == 1 && Propagates(isSub, xs[i], ys[i]) {
      assert CarryInto(isSub, xs, ys, 0, i) == 1;
    }
    if LosesCarry(isSub, xs, ys, 0) {
      var i :| 0 <= i < |xs| && Propagates(isSub, xs[i], ys[i]) && CarryInto(isSub, xs, ys, 0, i) == 1;
      assert 1 <= i && Generated(isSub, xs[i - 1], ys[i - 1]) == 1;
    }
  }
}

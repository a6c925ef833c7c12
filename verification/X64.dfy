/**
 * The x86-64 instructions the code generator emits: how they are encoded, and how a processor decodes
 * them (Intel SDM Vol. 2A, sections 2.1.3 and 2.2.1: ModR/M fields and the REX prefix).
 */
module X64 {
  import opened Words
  import opened Ir

  datatype AluOp = Mov | Test | Xchg | Add | Sub | And | Or | Xor | Cmp

  datatype Inst =
    | RR(op: AluOp, dst: Register, src: Register)
    | MovImm(dst: Register, imm64: Word)
    | AddImm(dst: Register, imm32: Word32)
    | SubImm(dst: Register, imm32: Word32)
    | PushReg(reg: Register)
    | PopReg(reg: Register)
    | Return
    | Jump(rel: Word32)
    | Call(rel: Word32)
    | NoOp

  // ---- the emitter's side --------------------------------------------------

  function Opcode(op: AluOp): Byte {
    match op
    case Mov => 0x8B
    case Test => 0x85
    case Xchg => 0x87
    case Add => 0x03
    case Sub => 0x2B
    case And => 0x23
    case Or => 0x0B
    case Xor => 0x33
    case Cmp => 0x3B
  }

  predicate IsR8OrAbove(reg: Register) { 8 <= reg <= 15 }

  /** Three-bit register code; anything that is not an architectural register maps to 0. */
  function RegCode(reg: Register): nat { if reg <= 7 then reg else if reg <= 15 then reg - 8 else 0 }

  function Rex(w: bool, r: bool, x: bool, b: bool): Byte {
    0x40 + (if w then 8 else 0) + (if r then 4 else 0) + (if x then 2 else 0) + (if b then 1 else 0)
  }

  /** No prefix byte is written when no bit is set. */
  function RexBytes(w: bool, r: bool, x: bool, b: bool): seq<Byte> {
    if Rex(w, r, x, b) != 0x40 then [Rex(w, r, x, b)] else []
  }

  function ModRm(mod: nat, reg: nat, rm: nat): Byte
    requires mod < 4
  {
    mod * 64 + (reg % 8) * 8 + rm % 8
  }

  /** The low `n` bytes of a number, least significant first. */
  function LittleEndian(v: nat, n: nat): (s: seq<Byte>)
    ensures |s| == n
    decreases n
  {
    if n == 0 then [] else [v % 256] + LittleEndian(v / 256, n - 1)
  }

  function Encode(inst: Inst): (s: seq<Byte>)
    ensures s != []
  {
    match inst
    case RR(op, dst, src) =>
      RexBytes(true, IsR8OrAbove(dst), false, IsR8OrAbove(src)) + [Opcode(op), ModRm(3, RegCode(dst), RegCode(src))]
    case MovImm(dst, imm) =>
      RexBytes(true, false, false, IsR8OrAbove(dst)) + [0xB8 + RegCode(dst)] + LittleEndian(imm, 8)
    case AddImm(dst, imm) =>
      RexBytes(true, false, false, IsR8OrAbove(dst)) + [0x81, ModRm(3, 0, RegCode(dst))] + LittleEndian(imm, 4)
    case SubImm(dst, imm) =>
      RexBytes(true, false, false, IsR8OrAbove(dst)) + [0x81, ModRm(3, 5, RegCode(dst))] + LittleEndian(imm, 4)
    case PushReg(reg) => [0x50 + RegCode(reg)]
    case PopReg(reg) => [0x58 + RegCode(reg)]
    case Return => [0xC3]
    case Jump(rel) => [0xE9] + LittleEndian(rel, 4)
    case Call(rel) => [0xE8] + LittleEndian(rel, 4)
    case NoOp => [0x90]
  }

  function EncodeAll(insts: seq<Inst>): seq<Byte> {
    if insts == [] then [] else Encode(insts[0]) + EncodeAll(insts[1..])
  }

  /** Displacement written for a jump whose rel32 field lies at `current`. */
  function Rel32(target: Word, current: Word): Word32 { SubW(target, AddW(current, 4)) % W32 }

  // ---- the processor's side ------------------------------------------------

  /** The four payload bits of a REX prefix. */
  datatype Prefix = Prefix(w: bool, r: bool, x: bool, b: bool)

  function PrefixOf(byte: Byte): Prefix {
    Prefix(byte / 8 % 2 == 1, byte / 4 % 2 == 1, byte / 2 % 2 == 1, byte % 2 == 1)
  }

  /** A register number: three bits from the instruction, the fourth from the prefix. */
  function Extended(high: bool, low: nat): Register
    requires low < 8
  {
    if high then low + 8 else low
  }

  function Pow256(n: nat): (p: nat)
    ensures p > 0
  {
    if n == 0 then 1 else 256 * Pow256(n - 1)
  }

  function FromLittleEndian(s: seq<Byte>): (v: nat)
    ensures v < Pow256(|s|)
  {
    if s == [] then 0
    else
      var low: int := s[0];
      low + 256 * FromLittleEndian(s[1..])
  }

  lemma Pow256Values()
    ensures Pow256(4) == W32 && Pow256(8) == W64
  {
    assert Pow256(2) == 0x1_0000;
    assert Pow256(4) == 0x1_0000 * Pow256(2);
    assert Pow256(6) == 0x1_0000 * Pow256(4);
    assert Pow256(8) == 0x1_0000 * Pow256(6);
  }

  function AluOpOf(opcode: Byte): Option<AluOp> {
    match opcode
    case 0x8B => Some(Mov)
    case 0x85 => Some(Test)
    case 0x87 => Some(Xchg)
    case 0x03 => Some(Add)
    case 0x2B => Some(Sub)
    case 0x23 => Some(AluOp.And)
    case 0x0B => Some(AluOp.Or)
    case 0x33 => Some(AluOp.Xor)
    case 0x3B => Some(Cmp)
    case _ => None
  }

  function Imm32(s: seq<Byte>): Word32
    requires |s| == 4
  {
    Pow256Values();
    FromLittleEndian(s)
  }

  function Imm64(s: seq<Byte>): Word
    requires |s| == 8
  {
    Pow256Values();
    FromLittleEndian(s)
  }

  /** 64-bit operand forms with a REX prefix. */
  function DecodeWide(p: Prefix, s: seq<Byte>): Option<(Inst, nat)> {
    if !p.w || p.x || s == [] then None
    else if 0xB8 <= s[0] <= 0xBF then
      if p.r || |s| < 9 then None
      else Some((MovImm(Extended(p.b, s[0] - 0xB8), Imm64(s[1..9])), 9))
    else if |s| < 2 || s[1] / 64 != 3 then None
    else
      var reg, rm := s[1] / 8 % 8, s[1] % 8;
      if s[0] == 0x81 then
        if p.r || |s| < 6 then None
        else if reg == 0 then Some((AddImm(Extended(p.b, rm), Imm32(s[2..6])), 6))
        else if reg == 5 then Some((SubImm(Extended(p.b, rm), Imm32(s[2..6])), 6))
        else None
      else
        match AluOpOf(s[0])
        case Some(op) => Some((RR(op, Extended(p.r, reg), Extended(p.b, rm)), 2))
        case None => None
  }

  /** Push and pop of the upper eight registers: REX.B alone, then the opcode with the low three bits. */
  function DecodeHighStack(p: Prefix, s: seq<Byte>): Option<(Inst, nat)> {
    if p != Prefix(false, false, false, true) || s == [] then None
    else if 0x50 <= s[0] <= 0x57 then Some((PushReg(Extended(true, s[0] - 0x50)), 1))
    else if 0x58 <= s[0] <= 0x5F then Some((PopReg(Extended(true, s[0] - 0x58)), 1))
    else None
  }

  function DecodePrefixed(p: Prefix, s: seq<Byte>): Option<(Inst, nat)> {
    if p.w then DecodeWide(p, s) else DecodeHighStack(p, s)
  }

  function DecodePlain(s: seq<Byte>): Option<(Inst, nat)>
    requires s != []
  {
    if 0x50 <= s[0] <= 0x57 then Some((PushReg(s[0] - 0x50), 1))
    else if 0x58 <= s[0] <= 0x5F then Some((PopReg(s[0] - 0x58), 1))
    else if s[0] == 0xC3 then Some((Return, 1))
    else if s[0] == 0x90 then Some((NoOp, 1))
    else if (s[0] == 0xE9 || s[0] == 0xE8) && |s| >= 5 then
      Some((if s[0] == 0xE9 then Jump(Imm32(s[1..5])) else Call(Imm32(s[1..5])), 5))
    else None
  }

  /** The instruction at the start of the bytes and its length. */
  function Decode(s: seq<Byte>): (r: Option<(Inst, nat)>)
    ensures r.Some? ==> 0 < r.value.1 <= |s|
  {
    if s == [] then None
    else if 0x40 <= s[0] <= 0x4F then
      match DecodePrefixed(PrefixOf(s[0]), s[1..])
      case Some((inst, n)) => Some((inst, n + 1))
      case None => None
    else DecodePlain(s)
  }

  function DecodeAll(s: seq<Byte>): Option<seq<Inst>>
    decreases |s|
  {
    if s == [] then Some([])
    else
      match Decode(s)
      case None => None
      case Some((inst, n)) =>
        match DecodeAll(s[n..])
        case None => None
        case Some(rest) => Some([inst] + rest)
  }

  /** Where a decoded displacement leads: next instruction plus the sign-extended displacement. */
  function TargetOf(rel: Word32, current: Word): Word {
    Low64(current + 4 + (if rel < 0x8000_0000 then rel else rel - W32))
  }

  // ---- round trips ---------------------------------------------------------

  /** What the emitter can express: the architectural registers, and for push and pop only the low
    * eight, because the three-bit code is tested where the four-bit number was meant. */
  function Expressible(inst: Inst): Inst {
    match inst
    case RR(op, dst, src) => RR(op, Architectural(dst), Architectural(src))
    case MovImm(dst, imm) => MovImm(Architectural(dst), imm)
    case AddImm(dst, imm) => AddImm(Architectural(dst), imm)
    case SubImm(dst, imm) => SubImm(Architectural(dst), imm)
    case PushReg(reg) => PushReg(RegCode(reg))
    case PopReg(reg) => PopReg(RegCode(reg))
    case _ => inst
  }

  function Architectural(reg: Register): Register { if reg <= 15 then reg else RAX }

  predicate Encodable(inst: Inst) {
    match inst
    case RR(op, dst, src) => dst <= 15 && src <= 15
    case MovImm(dst, imm) => dst <= 15
    case AddImm(dst, imm) => dst <= 15
    case SubImm(dst, imm) => dst <= 15
    case PushReg(reg) => reg <= 7
    case PopReg(reg) => reg <= 7
    case _ => true
  }

  lemma EncodableIsExpressible(inst: Inst)
    ensures Encodable(inst) <==> Expressible(inst) == inst
    ensures Encodable(Expressible(inst))
  {
  }

  lemma {:induction false} FromThenTo(v: nat, n: nat)
    requires v < Pow256(n)
    ensures FromLittleEndian(LittleEndian(v, n)) == v
  {
    if n > 0 {
      FromThenTo(v / 256, n - 1);
      assert LittleEndian(v, n)[1..] == LittleEndian(v / 256, n - 1);
    }
  }

  lemma {:induction false} ToThenFrom(s: seq<Byte>)
    ensures LittleEndian(FromLittleEndian(s), |s|) == s
  {
    if s != [] {
      ToThenFrom(s[1..]);
      var low: int := s[0];
      var high := FromLittleEndian(s[1..]);
      assert (low + 256 * high) % 256 == low && (low + 256 * high) / 256 == high;
      assert s == [s[0]] + s[1..];
    }
  }

  lemma ImmediatesInvert(v: Word, u: Word32)
    ensures Imm64(LittleEndian(v, 8)) == v && Imm32(LittleEndian(u, 4)) == u
  {
    Pow256Values();
    FromThenTo(v, 8);
    FromThenTo(u, 4);
  }

  /** Fields packed by the emitter are the fields the processor unpacks. */
  lemma FieldsInvert(w: bool, r: bool, b: bool, reg: nat, rm: nat)
    requires reg < 8 && rm < 8
    ensures PrefixOf(Rex(w, r, false, b)) == Prefix(w, r, false, b)
    ensures var m := ModRm(3, reg, rm); m / 64 == 3 && m / 8 % 8 == reg && m % 8 == rm
  {
  }

  lemma AluOpsInvert(op: AluOp)
    ensures AluOpOf(Opcode(op)) == Some(op) && Opcode(op) != 0x81 && !(0xB8 <= Opcode(op) <= 0xBF)
  {
  }

  lemma RegistersInvert(reg: Register)
    ensures RegCode(reg) < 8 && Extended(IsR8OrAbove(reg), RegCode(reg)) == Architectural(reg)
  {
  }

  lemma DecodeEncodeRR(op: AluOp, dst: Register, src: Register, rest: seq<Byte>)
    ensures Decode(Encode(RR(op, dst, src)) + rest) == Some((Expressible(RR(op, dst, src)), |Encode(RR(op, dst, src))|))
  {
    FieldsInvert(true, IsR8OrAbove(dst), IsR8OrAbove(src), RegCode(dst), RegCode(src));
    AluOpsInvert(op);
    RegistersInvert(dst);
    RegistersInvert(src);
  }

  lemma Middle(a: seq<Byte>, b: seq<Byte>, c: seq<Byte>)
    ensures (a + b + c)[|a|..|a| + |b|] == b
  {
  }

  /** The eight immediate bytes are whatever they are. */
  lemma DecodeMovBytes(dst: Register, bytes: seq<Byte>, rest: seq<Byte>)
    requires |bytes| == 8
    ensures Decode([Rex(true, false, false, IsR8OrAbove(dst)), 0xB8 + RegCode(dst)] + bytes + rest)
            == Some((MovImm(Architectural(dst), Imm64(bytes)), 10))
  {
    FieldsInvert(true, false, IsR8OrAbove(dst), 0, 0);
    RegistersInvert(dst);
    var rex := Rex(true, false, false, IsR8OrAbove(dst));
    var op: seq<Byte> := [0xB8 + RegCode(dst)];
    Middle(op, bytes, rest);
    assert ([rex, 0xB8 + RegCode(dst)] + bytes + rest)[1..] == op + bytes + rest;
  }

  lemma WideRex(r: bool, b: bool)
    ensures RexBytes(true, r, false, b) == [Rex(true, r, false, b)]
  {
  }

  lemma DecodeEncodeMovImm(dst: Register, imm: Word, rest: seq<Byte>)
    ensures Decode(Encode(MovImm(dst, imm)) + rest) == Some((Expressible(MovImm(dst, imm)), |Encode(MovImm(dst, imm))|))
  {
    var bytes := LittleEndian(imm, 8);
    var rex, op: Byte := Rex(true, false, false, IsR8OrAbove(dst)), 0xB8 + RegCode(dst);
    WideRex(false, IsR8OrAbove(dst));
    assert [rex] + [op] == [rex, op];
    assert Encode(MovImm(dst, imm)) == [rex, op] + bytes;
    DecodeMovBytes(dst, bytes, rest);
    assert Imm64(bytes) == imm by { ImmediatesInvert(imm, 0); }
  }

  /** Addition or subtraction of an immediate. */
  function AluImm(isSub: bool, dst: Register, imm: Word32): Inst {
    if isSub then SubImm(dst, imm) else AddImm(dst, imm)
  }

  /** The three bytes before the immediate. */
  function AluImmHead(isSub: bool, dst: Register): (s: seq<Byte>)
    ensures |s| == 3
  {
    [Rex(true, false, false, IsR8OrAbove(dst)), 0x81, ModRm(3, if isSub then 5 else 0, RegCode(dst))]
  }

  lemma DecodeAluBytes(dst: Register, bytes: seq<Byte>, isSub: bool, rest: seq<Byte>)
    requires |bytes| == 4
    ensures Decode(AluImmHead(isSub, dst) + bytes + rest) == Some((AluImm(isSub, Architectural(dst), Imm32(bytes)), 7))
  {
    FieldsInvert(true, false, IsR8OrAbove(dst), if isSub then 5 else 0, RegCode(dst));
    RegistersInvert(dst);
    var ops := AluImmHead(isSub, dst)[1..];
    Middle(ops, bytes, rest);
    assert (AluImmHead(isSub, dst) + bytes + rest)[1..] == ops + bytes + rest;
  }

  lemma EncodeAluImm(dst: Register, imm: Word32, isSub: bool)
    ensures Encode(AluImm(isSub, dst, imm)) == AluImmHead(isSub, dst) + LittleEndian(imm, 4)
  {
    WideRex(false, IsR8OrAbove(dst));
    var head := AluImmHead(isSub, dst);
    assert [head[0]] + [head[1], head[2]] == head;
  }

  lemma DecodeEncodeAluImm(dst: Register, imm: Word32, isSub: bool, rest: seq<Byte>)
    ensures var inst := AluImm(isSub, dst, imm);
            Decode(Encode(inst) + rest) == Some((Expressible(inst), |Encode(inst)|))
  {
    ImmediatesInvert(0, imm);
    EncodeAluImm(dst, imm, isSub);
    DecodeAluBytes(dst, LittleEndian(imm, 4), isSub, rest);
  }

  /** Decoding what was emitted, whatever follows it, gives back the expressible form and its length. */
  lemma DecodeEncode(inst: Inst, rest: seq<Byte>)
    ensures Decode(Encode(inst) + rest) == Some((Expressible(inst), |Encode(inst)|))
  {
    match inst {
      case RR(op, dst, src) => DecodeEncodeRR(op, dst, src, rest);
      case MovImm(dst, imm) => DecodeEncodeMovImm(dst, imm, rest);
      case AddImm(dst, imm) => DecodeEncodeAluImm(dst, imm, inst.SubImm?, rest);
      case SubImm(dst, imm) => DecodeEncodeAluImm(dst, imm, inst.SubImm?, rest);
      case Jump(rel) =>
        ImmediatesInvert(0, rel);
        assert (Encode(inst) + rest)[1..5] == LittleEndian(rel, 4);
      case Call(rel) =>
        ImmediatesInvert(0, rel);
        assert (Encode(inst) + rest)[1..5] == LittleEndian(rel, 4);
      case PushReg(reg) =>
      case PopReg(reg) =>
      case Return =>
      case NoOp =>
    }
  }

  /** These bytes are the encoding of the instruction if it is encodable, and longer if it is not. */
  predicate Rebuilds(inst: Inst, bytes: seq<Byte>) {
    if Encodable(inst) then Encode(inst) == bytes else |Encode(inst)| < |bytes|
  }

  /** The other direction: what decodes encodes to exactly the bytes consumed if it is encodable, and to
    * fewer bytes if it is not. */
  lemma EncodeDecode(s: seq<Byte>)
    requires Decode(s).Some?
    ensures Rebuilds(Decode(s).value.0, s[..Decode(s).value.1])
  {
    if 0x40 <= s[0] <= 0x4F {
      EncodeDecodePrefixed(s);
    } else {
      EncodeDecodePlain(s);
    }
  }

  lemma EncodeDecodePrefixed(s: seq<Byte>)
    requires Decode(s).Some? && 0x40 <= s[0] <= 0x4F
    ensures Rebuilds(Decode(s).value.0, s[..Decode(s).value.1])
  {
    var n := Decode(s).value.1;
    assert s[..n] == [s[0]] + s[1..][..n - 1];
    if PrefixOf(s[0]).w {
      EncodeDecodeWide(s[0], s[1..]);
    }
  }

  lemma EncodeDecodePlain(s: seq<Byte>)
    requires s != [] && DecodePlain(s).Some?
    ensures Rebuilds(DecodePlain(s).value.0, s[..DecodePlain(s).value.1])
  {
    if s[0] == 0xE9 || s[0] == 0xE8 {
      ToThenFrom(s[1..5]);
      assert s[..5] == [s[0]] + s[1..5];
    } else {
      assert s[..1] == [s[0]];
    }
  }

  lemma PrefixRebuilds(byte: Byte)
    requires 0x40 <= byte <= 0x4F
    ensures var p := PrefixOf(byte); Rex(p.w, p.r, p.x, p.b) == byte
  {
  }

  lemma ModRmRebuilds(byte: Byte)
    ensures ModRm(byte / 64, byte / 8 % 8, byte % 8) == byte
  {
    var high, low: int := byte / 8, byte % 8;
    assert byte / 64 == high / 8;
    assert high == high / 8 * 8 + high % 8;
    assert byte == high * 8 + low;
  }

  lemma ExtendedInverts(high: bool, low: nat)
    requires low < 8
    ensures IsR8OrAbove(Extended(high, low)) == high && RegCode(Extended(high, low)) == low
  {
  }

  lemma EncodeDecodeWide(prefix: Byte, s: seq<Byte>)
    requires 0x40 <= prefix <= 0x4F && DecodeWide(PrefixOf(prefix), s).Some?
    ensures var (inst, n) := DecodeWide(PrefixOf(prefix), s).value;
            n <= |s| && Encodable(inst) && Encode(inst) == [prefix] + s[..n]
  {
    PrefixRebuilds(prefix);
    if 0xB8 <= s[0] <= 0xBF {
      ExtendedInverts(PrefixOf(prefix).b, s[0] - 0xB8);
      ToThenFrom(s[1..9]);
      assert s[..9] == [s[0]] + s[1..9];
    } else if s[0] == 0x81 {
      EncodeDecodeAluImm(prefix, s);
    } else {
      EncodeDecodeRR(prefix, s);
    }
  }

  lemma EncodeDecodeAluImm(prefix: Byte, s: seq<Byte>)
    requires 0x40 <= prefix <= 0x4F && DecodeWide(PrefixOf(prefix), s).Some? && s[0] == 0x81
    ensures var (inst, n) := DecodeWide(PrefixOf(prefix), s).value;
            n == 6 <= |s| && Encodable(inst) && Encode(inst) == [prefix] + s[..6]
  {
    PrefixRebuilds(prefix);
    ModRmRebuilds(s[1]);
    ExtendedInverts(PrefixOf(prefix).b, s[1] % 8);
    var imm := Imm32(s[2..6]);
    assert LittleEndian(imm, 4) == s[2..6] by { ToThenFrom(s[2..6]); }
    assert s[..6] == [s[0], s[1]] + s[2..6];
    assert [prefix] + [s[0], s[1]] + s[2..6] == [prefix] + s[..6];
  }

  lemma EncodeDecodeRR(prefix: Byte, s: seq<Byte>)
    requires 0x40 <= prefix <= 0x4F && DecodeWide(PrefixOf(prefix), s).Some?
    requires s[0] != 0x81 && !(0xB8 <= s[0] <= 0xBF)
    ensures var (inst, n) := DecodeWide(PrefixOf(prefix), s).value;
            n == 2 <= |s| && Encodable(inst) && Encode(inst) == [prefix] + s[..2]
  {
    var p := PrefixOf(prefix);
    PrefixRebuilds(prefix);
    ModRmRebuilds(s[1]);
    ExtendedInverts(p.r, s[1] / 8 % 8);
    ExtendedInverts(p.b, s[1] % 8);
    assert s[..2] == [s[0], s[1]];
  }

  // ---- streams -------------------------------------------------------------

  function ExpressibleAll(insts: seq<Inst>): seq<Inst> {
    if insts == [] then [] else [Expressible(insts[0])] + ExpressibleAll(insts[1..])
  }

  /** Decoding an emitted stream returns its instructions. */
  lemma {:induction false} DecodeEncodeAll(insts: seq<Inst>)
    ensures DecodeAll(EncodeAll(insts)) == Some(ExpressibleAll(insts))
  {
    if insts != [] {
      var first, rest := Encode(insts[0]), EncodeAll(insts[1..]);
      DecodeEncode(insts[0], rest);
      DecodeEncodeAll(insts[1..]);
      assert (first + rest)[|first|..] == rest;
    }
  }

  predicate AllEncodable(insts: seq<Inst>) { forall i :: 0 <= i < |insts| ==> Encodable(insts[i]) }

  lemma AllEncodableCons(inst: Inst, rest: seq<Inst>)
    ensures AllEncodable([inst] + rest) <==> Encodable(inst) && AllEncodable(rest)
  {
    if AllEncodable([inst] + rest) {
      assert ([inst] + rest)[0] == inst;
      assert forall i :: 0 <= i < |rest| ==> rest[i] == ([inst] + rest)[i + 1];
    }
  }

  lemma {:induction false} ExpressibleIffEncodable(insts: seq<Inst>)
    ensures ExpressibleAll(insts) == insts <==> AllEncodable(insts)
  {
    if insts != [] {
      EncodableIsExpressible(insts[0]);
      ExpressibleIffEncodable(insts[1..]);
      AllEncodableCons(insts[0], insts[1..]);
      assert insts == [insts[0]] + insts[1..];
      ConsEqual(Expressible(insts[0]), ExpressibleAll(insts[1..]), insts[0], insts[1..]);
    }
  }

  lemma ConsEqual(a: Inst, s: seq<Inst>, b: Inst, t: seq<Inst>)
    ensures [a] + s == [b] + t <==> a == b && s == t
  {
    assert ([a] + s)[0] == a && ([b] + t)[0] == b;
    assert ([a] + s)[1..] == s && ([b] + t)[1..] == t;
  }

  /** A stream comes back unchanged exactly when every instruction is encodable. */
  lemma StreamExact(insts: seq<Inst>)
    ensures DecodeAll(EncodeAll(insts)) == Some(insts) <==> AllEncodable(insts)
  {
    DecodeEncodeAll(insts);
    ExpressibleIffEncodable(insts);
  }

  /** What an emitted stream decodes to never pushes or pops an upper register. */
  lemma {:induction false} EmittedDecodesEncodable(insts: seq<Inst>)
    ensures AllEncodable(ExpressibleAll(insts))
  {
    if insts != [] {
      EncodableIsExpressible(insts[0]);
      EmittedDecodesEncodable(insts[1..]);
    }
  }

  predicate RebuildsAll(insts: seq<Inst>, bytes: seq<Byte>) {
    if AllEncodable(insts) then EncodeAll(insts) == bytes else |EncodeAll(insts)| < |bytes|
  }

  lemma RebuildsMore(inst: Inst, bytes: seq<Byte>, rest: seq<Inst>, more: seq<Byte>)
    requires Rebuilds(inst, bytes) && RebuildsAll(rest, more)
    ensures RebuildsAll([inst] + rest, bytes + more)
  {
    assert ([inst] + rest)[1..] == rest;
    AllEncodableCons(inst, rest);
  }

  lemma {:induction false} EncodeNotLonger(s: seq<Byte>)
    requires DecodeAll(s).Some?
    ensures RebuildsAll(DecodeAll(s).value, s)
    decreases |s|
  {
    if s != [] {
      var (inst, n) := Decode(s).value;
      EncodeDecode(s);
      EncodeNotLonger(s[n..]);
      RebuildsMore(inst, s[..n], DecodeAll(s[n..]).value, s[n..]);
      assert s == s[..n] + s[n..];
    }
  }

  /** A byte string that decodes is the encoding of what it decodes to exactly if all of that is encodable. */
  lemma EncodeDecodeAll(s: seq<Byte>)
    requires DecodeAll(s).Some?
    ensures EncodeAll(DecodeAll(s).value) == s <==> AllEncodable(DecodeAll(s).value)
  {
    EncodeNotLonger(s);
  }

  /** A rel32 jump reaches its target exactly when the displacement fits in 32 signed bits. */
  lemma RelativeTarget(target: Word, current: Word)
    ensures TargetOf(Rel32(target, current), current) == target
            <==> -0x8000_0000 <= Signed(SubW(target, AddW(current, 4))) < 0x8000_0000
  {
    var next := AddW(current, 4);
    var d := SubW(target, next);
    var rel := Rel32(target, current);
    var wide := if rel < 0x8000_0000 then rel else rel - W32;
    LowSumShift(current + 4, wide);
    LowSumUnique(target, next, wide);
    WideOfLow(d);
  }

  lemma LowSumShift(a: int, b: int)
    ensures Low64(a + b) == Low64(Low64(a) + b)
  {
  }

  /** Adding a small displacement to `next` gives `target` iff it is the signed difference. */
  lemma LowSumUnique(target: Word, next: Word, wide: int)
    requires -0x8000_0000 <= wide < 0x8000_0000
    ensures Low64(next + wide) == target <==> wide == Signed(SubW(target, next))
  {
    assert SubW(target, next) == if target >= next then target - next else target - next + W64;
    assert Low64(next + wide) == if next + wide < 0 then next + wide + W64
                                 else if next + wide < W64 then next + wide else next + wide - W64;
  }

  lemma WideOfLow(d: Word)
    ensures var rel := d % W32;
            (if rel < 0x8000_0000 then rel else rel - W32) == Signed(d)
            <==> -0x8000_0000 <= Signed(d) < 0x8000_0000
  {
  }
}

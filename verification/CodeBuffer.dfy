/** The code buffer and its emitters: bytes appended in place to a 4096-byte array, dropped when full. */
module CodeBuffer {
  import opened Words
  import opened Ir
  import opened X64

  const MAX_CODE_SIZE := 4096

  /** What of a byte stream fits into the buffer. */
  function Clip(s: seq<Byte>): (r: seq<Byte>)
    ensures |r| <= MAX_CODE_SIZE
  {
    if |s| <= MAX_CODE_SIZE then s else s[..MAX_CODE_SIZE]
  }

  lemma ClipAppend(a: seq<Byte>, b: seq<Byte>, c: seq<Byte>)
    ensures Clip(Clip(a) + b) == Clip(a + b)
    ensures Clip(Clip(a + b) + c) == Clip(a + (b + c))
  {
    assert a + b + c == a + (b + c);
  }

  class Buffer {
    const bytes: array<Byte>
    var len: nat

    ghost predicate Valid()
      reads this
    {
      bytes.Length == MAX_CODE_SIZE && len <= MAX_CODE_SIZE
    }

    ghost function Contents(): seq<Byte>
      requires Valid()
      reads this, bytes
    {
      bytes[..len]
    }

    constructor ()
      ensures Valid() && fresh(bytes) && Contents() == []
    {
      bytes := new Byte[MAX_CODE_SIZE](_ => 0);
      len := 0;
    }

    method EmitU8(v: Byte)
      requires Valid()
      modifies this`len, bytes
      ensures Valid() && Contents() == Clip(old(Contents()) + [v])
    {
      if len < MAX_CODE_SIZE {
        bytes[len] := v;
        len := len + 1;
      }
    }

    method EmitBytes(b: seq<Byte>)
      requires Valid()
      modifies this`len, bytes
      ensures Valid() && Contents() == Clip(old(Contents()) + b)
    {
      assert b[..0] == [] && Clip(old(Contents()) + []) == old(Contents());
      for i := 0 to |b|
        invariant Valid() && Contents() == Clip(old(Contents()) + b[..i])
      {
        EmitU8(b[i]);
        ClipAppend(old(Contents()), b[..i], [b[i]]);
        assert b[..i] + [b[i]] == b[..i + 1];
      }
      assert b[..|b|] == b;
    }

    method EmitU32(v: Word32)
      requires Valid()
      modifies this`len, bytes
      ensures Valid() && Contents() == Clip(old(Contents()) + LittleEndian(v, 4))
    {
      EmitBytes(LittleEndian(v, 4));
    }

    method EmitRex(w: bool, r: bool, x: bool, b: bool)
      requires Valid()
      modifies this`len, bytes
      ensures Valid() && Contents() == Clip(old(Contents()) + RexBytes(w, r, x, b))
    {
      var rex := 0x40;
      if w { rex := rex + 0x08; }
      if r { rex := rex + 0x04; }
      if x { rex := rex + 0x02; }
      if b { rex := rex + 0x01; }
      if rex != 0x40 {
        EmitU8(rex);
      }
    }

    method EmitModRm(mod: nat, reg: nat, rm: nat)
      requires Valid() && mod < 4
      modifies this`len, bytes
      ensures Valid() && Contents() == Clip(old(Contents()) + [ModRm(mod, reg, rm)])
    {
      EmitU8(mod * 64 + (reg % 8) * 8 + rm % 8);
    }

    method EmitRel32(target: Word, current: Word)
      requires Valid()
      modifies this`len, bytes
      ensures Valid() && Contents() == Clip(old(Contents()) + LittleEndian(Rel32(target, current), 4))
    {
      EmitU32(SubW(target, AddW(current, 4)) % W32);
    }

    // ---- one method per emitter ----------------------------------------------

    /** REX.W, opcode, ModR/M with two registers. */
    method EmitRegReg(opcode: Byte, dst: Register, src: Register)
      requires Valid()
      modifies this`len, bytes
      ensures Valid()
      ensures Contents() == Clip(old(Contents()) + (RexBytes(true, IsR8OrAbove(dst), false, IsR8OrAbove(src))
                                                    + [opcode, ModRm(3, RegCode(dst), RegCode(src))]))
    {
      ghost var rex := RexBytes(true, IsR8OrAbove(dst), false, IsR8OrAbove(src));
      ghost var modrm := ModRm(3, RegCode(dst), RegCode(src));
      EmitRex(true, IsR8OrAbove(dst), false, IsR8OrAbove(src));
      EmitU8(opcode);
      EmitModRm(3, RegCode(dst), RegCode(src));
      ClipAppend(old(Contents()), rex, [opcode]);
      ClipAppend(old(Contents()), rex + [opcode], [modrm]);
      assert rex + [opcode] + [modrm] == rex + [opcode, modrm];
    }

    method EmitMovRr(dst: Register, src: Register)
      requires Valid()
      modifies this`len, bytes
      ensures Valid() && Contents() == Clip(old(Contents()) + Encode(RR(Mov, dst, src)))
    {
      EmitRegReg(0x8B, dst, src);
    }

    method EmitTestRr(dst: Register, src: Register)
      requires Valid()
      modifies this`len, bytes
      ensures Valid() && Contents() == Clip(old(Contents()) + Encode(RR(Test, dst, src)))
    {
      EmitRegReg(0x85, dst, src);
    }

    method EmitXchgRr(dst: Register, src: Register)
      requires Valid()
      modifies this`len, bytes
      ensures Valid() && Contents() == Clip(old(Contents()) + Encode(RR(Xchg, dst, src)))
    {
      EmitRegReg(0x87, dst, src);
    }

    method EmitAddRr(dst: Register, src: Register)
      requires Valid()
      modifies this`len, bytes
      ensures Valid() && Contents() == Clip(old(Contents()) + Encode(RR(Add, dst, src)))
    {
      EmitRegReg(0x03, dst, src);
    }

    method EmitSubRr(dst: Register, src: Register)
      requires Valid()
      modifies this`len, bytes
      ensures Valid() && Contents() == Clip(old(Contents()) + Encode(RR(Sub, dst, src)))
    {
      EmitRegReg(0x2B, dst, src);
    }

    method EmitAndRr(dst: Register, src: Register)
      requires Valid()
      modifies this`len, bytes
      ensures Valid() && Contents() == Clip(old(Contents()) + Encode(RR(AluOp.And, dst, src)))
    {
      EmitRegReg(0x23, dst, src);
    }

    method EmitOrRr(dst: Register, src: Register)
      requires Valid()
      modifies this`len, bytes
      ensures Valid() && Contents() == Clip(old(Contents()) + Encode(RR(AluOp.Or, dst, src)))
    {
      EmitRegReg(0x0B, dst, src);
    }

    method EmitXorRr(dst: Register, src: Register)
      requires Valid()
      modifies this`len, bytes
      ensures Valid() && Contents() == Clip(old(Contents()) + Encode(RR(AluOp.Xor, dst, src)))
    {
      EmitRegReg(0x33, dst, src);
    }

    method EmitCmpRr(dst: Register, src: Register)
      requires Valid()
      modifies this`len, bytes
      ensures Valid() && Contents() == Clip(old(Contents()) + Encode(RR(Cmp, dst, src)))
    {
      EmitRegReg(0x3B, dst, src);
    }

    /** REX.W, one opcode byte and immediate bytes. */
    method EmitOpImm(b: bool, op: Byte, imm: seq<Byte>)
      requires Valid()
      modifies this`len, bytes
      ensures Valid() && Contents() == Clip(old(Contents()) + (RexBytes(true, false, false, b) + [op] + imm))
    {
      EmitRex(true, false, false, b);
      EmitU8(op);
      EmitBytes(imm);
      ClipAppend(old(Contents()), RexBytes(true, false, false, b), [op]);
      ClipAppend(old(Contents()), RexBytes(true, false, false, b) + [op], imm);
    }

    method EmitMovRi(dst: Register, imm: Word)
      requires Valid()
      modifies this`len, bytes
      ensures Valid() && Contents() == Clip(old(Contents()) + Encode(MovImm(dst, imm)))
    {
      var bytes := LittleEndian(imm, 8);
      MovImmBytes(dst, imm, bytes);
      EmitOpImm(IsR8OrAbove(dst), 0xB8 + RegCode(dst), bytes);
    }

    /** REX.W 81 with an opcode extension and a 32-bit immediate. */
    method EmitAluImm(ext: nat, dst: Register, imm: Word32)
      requires Valid() && ext < 8
      modifies this`len, bytes
      ensures Valid()
      ensures Contents() == Clip(old(Contents()) + (RexBytes(true, false, false, IsR8OrAbove(dst))
                                                    + [0x81, ModRm(3, ext, RegCode(dst))] + LittleEndian(imm, 4)))
    {
      ghost var rex := RexBytes(true, false, false, IsR8OrAbove(dst));
      ghost var modrm := ModRm(3, ext, RegCode(dst));
      EmitRex(true, false, false, IsR8OrAbove(dst));
      EmitU8(0x81);
      EmitModRm(3, ext, RegCode(dst));
      EmitU32(imm);
      ClipAppend(old(Contents()), rex, [0x81]);
      ClipAppend(old(Contents()), rex + [0x81], [modrm]);
      assert rex + [0x81] + [modrm] == rex + [0x81, modrm];
      ClipAppend(old(Contents()), rex + [0x81, modrm], LittleEndian(imm, 4));
    }

    method EmitAddRi(dst: Register, imm: Word32)
      requires Valid()
      modifies this`len, bytes
      ensures Valid() && Contents() == Clip(old(Contents()) + Encode(AddImm(dst, imm)))
    {
      EmitAluImm(0, dst, imm);
    }

    method EmitSubRi(dst: Register, imm: Word32)
      requires Valid()
      modifies this`len, bytes
      ensures Valid() && Contents() == Clip(old(Contents()) + Encode(SubImm(dst, imm)))
    {
      EmitAluImm(5, dst, imm);
    }

    method EmitPushR(reg: Register)
      requires Valid()
      modifies this`len, bytes
      ensures Valid() && Contents() == Clip(old(Contents()) + Encode(PushReg(reg)))
    {
      var r := RegCode(reg);
      // the prefix is guarded by r >= 8, which a three-bit code never satisfies
      if r >= 8 {
        assert false;
      }
      EmitU8(0x50 + r % 8);
    }

    method EmitPopR(reg: Register)
      requires Valid()
      modifies this`len, bytes
      ensures Valid() && Contents() == Clip(old(Contents()) + Encode(PopReg(reg)))
    {
      var r := RegCode(reg);
      // the prefix is guarded by r >= 8, which a three-bit code never satisfies
      if r >= 8 {
        assert false;
      }
      EmitU8(0x58 + r % 8);
    }

    method EmitRet()
      requires Valid()
      modifies this`len, bytes
      ensures Valid() && Contents() == Clip(old(Contents()) + Encode(Return))
    {
      EmitU8(0xC3);
    }

    method EmitNop()
      requires Valid()
      modifies this`len, bytes
      ensures Valid() && Contents() == Clip(old(Contents()) + Encode(NoOp))
    {
      EmitU8(0x90);
    }

    method EmitJmpRel32(target: Word, current: Word)
      requires Valid()
      modifies this`len, bytes
      ensures Valid() && Contents() == Clip(old(Contents()) + Encode(Jump(Rel32(target, current))))
    {
      EmitU8(0xE9);
      EmitRel32(target, current);
      ClipAppend(old(Contents()), [0xE9], LittleEndian(Rel32(target, current), 4));
    }

    method EmitCallRel32(target: Word, current: Word)
      requires Valid()
      modifies this`len, bytes
      ensures Valid() && Contents() == Clip(old(Contents()) + Encode(Call(Rel32(target, current))))
    {
      EmitU8(0xE8);
      EmitRel32(target, current);
      ClipAppend(old(Contents()), [0xE8], LittleEndian(Rel32(target, current), 4));
    }
  }

  /** The buffer after emitting a stream into it is the 4096-byte prefix of the stream. */
  function EmittedFrom(contents: seq<Byte>, insts: seq<Inst>): seq<Byte>
    decreases |insts|
  {
    if insts == [] then contents else EmittedFrom(Clip(contents + Encode(insts[0])), insts[1..])
  }

  lemma {:induction false} EmittedIsPrefix(contents: seq<Byte>, insts: seq<Inst>)
    requires |contents| <= MAX_CODE_SIZE
    ensures EmittedFrom(contents, insts) == Clip(contents + EncodeAll(insts))
    decreases |insts|
  {
    if insts == [] {
      assert contents + [] == contents;
    } else {
      EmittedIsPrefix(Clip(contents + Encode(insts[0])), insts[1..]);
      ClipAppend(contents, Encode(insts[0]), EncodeAll(insts[1..]));
    }
  }

  lemma MovImmBytes(dst: Register, imm: Word, bytes: seq<Byte>)
    requires bytes == LittleEndian(imm, 8)
    ensures Encode(MovImm(dst, imm)) == RexBytes(true, false, false, IsR8OrAbove(dst)) + [0xB8 + RegCode(dst)] + bytes
  {
  }

  lemma {:induction false} ExpressibleSameBytes(insts: seq<Inst>)
    ensures EncodeAll(ExpressibleAll(insts)) == EncodeAll(insts)
  {
    if insts != [] {
      assert ExpressibleAll(insts)[1..] == ExpressibleAll(insts[1..]);
      SameEncoding(insts[0]);
      ExpressibleSameBytes(insts[1..]);
    }
  }

  lemma SameEncoding(inst: Inst)
    ensures Encode(Expressible(inst)) == Encode(inst)
  {
  }

  /** A stream that does not fit is never what the buffer decodes to. */
  lemma OverflowShows(insts: seq<Inst>, decoded: seq<Inst>)
    requires |EncodeAll(insts)| > MAX_CODE_SIZE && EncodeAll(decoded) == EncodeAll(insts)
    ensures DecodeAll(Clip(EncodeAll(insts))) != Some(decoded)
  {
    var kept := Clip(EncodeAll(insts));
    if DecodeAll(kept) == Some(decoded) {
      EncodeNotLonger(kept);
    }
  }

  lemma FittingRoundTrip(insts: seq<Inst>)
    requires |EncodeAll(insts)| <= MAX_CODE_SIZE
    ensures DecodeAll(Clip(EncodeAll(insts))) == Some(ExpressibleAll(insts))
    ensures DecodeAll(Clip(EncodeAll(insts))) == Some(insts) <==> AllEncodable(insts)
  {
    DecodeEncodeAll(insts);
    StreamExact(insts);
  }

  lemma IntoEmptyBuffer(insts: seq<Inst>)
    ensures EmittedFrom([], insts) == Clip(EncodeAll(insts))
  {
    EmittedIsPrefix([], insts);
    assert [] + EncodeAll(insts) == EncodeAll(insts);
  }

  /** Emitting any stream into an empty buffer: decoding the buffer returns its instructions, as far as the
    * emitter can express them, exactly when the stream fits, and returns the stream itself exactly when
    * it fits and all its instructions are encodable. */
  lemma BufferRoundTrip(insts: seq<Inst>)
    ensures DecodeAll(EmittedFrom([], insts)) == Some(ExpressibleAll(insts)) <==> |EncodeAll(insts)| <= MAX_CODE_SIZE
    ensures DecodeAll(EmittedFrom([], insts)) == Some(insts)
            <==> |EncodeAll(insts)| <= MAX_CODE_SIZE && AllEncodable(insts)
  {
    IntoEmptyBuffer(insts);
    if |EncodeAll(insts)| <= MAX_CODE_SIZE {
      FittingRoundTrip(insts);
    } else {
      ExpressibleSameBytes(insts);
      OverflowShows(insts, ExpressibleAll(insts));
      OverflowShows(insts, insts);
    }
  }
}

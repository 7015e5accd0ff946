/** The emitter itself: calls write instruction bytes into a buffer and advance it, and push onto the two
    side tables. */
module JitEmitter {
  import opened Bits
  import opened X64Encoding
  import opened X64Machine
  import opened JitIr
  import opened CodeTables
  import opened JitTables

  // ----- The encoders' bit expressions -----

  function LowBits(r: int): LowReg {
    r % 8
  }

  lemma {:induction false} RexBits(a: nat, b: nat, c: nat)
    requires a < 2 && b < 2 && c < 2
    ensures BitOr(BitOr(BitOr(a, Shl(b, 2)), Shl(c, 3)), 0x40) == 0x40 + 8 * c + 4 * b + a
  {
    var ab := a + 4 * b;
    var abc := ab + 8 * c;
    SmallShifts(b, c, 1);
    assert BitOr(a, Shl(b, 2)) == ab by { DisjointOr(BitOp.Or, 2, a, b); }
    assert BitOr(ab, Shl(c, 3)) == abc by { DisjointOr(BitOp.Or, 3, ab, c); }
    assert BitOr(abc, 0x40) == abc + 0x40 by { DisjointOr(BitOp.Or, 6, abc, 1); }
  }

  lemma SmallShifts(x: nat, y: nat, z: nat)
    ensures Shl(x, 2) == 4 * x && Shl(y, 3) == 8 * y && Shl(z, 6) == 64 * z
    ensures Pow2(2) == 4 && Pow2(3) == 8 && Pow2(6) == 64
  {
    Pow2Values();
    assert Pow2(2) == 4;
  }

  lemma HwRegHighBit(r: int)
    ensures HwReg(r) / 8 == Flag(r > 7)
  {
  }

  /** The C expression for the REX byte is the arithmetic one. */
  lemma RexIsOr(dest: int, src: int, w: bool)
    ensures BitOr(BitOr(BitOr(Flag(dest > 7), Shl(Flag(src > 7), 2)), Shl(Flag(w), 3)), 0x40)
         == Rex(HwReg(dest), HwReg(src), w)
  {
    HwRegHighBit(dest);
    HwRegHighBit(src);
    RexBits(Flag(dest > 7), Flag(src > 7), Flag(w));
  }

  /** The C expression for the ModR/M byte is the arithmetic one. */
  lemma ModRMIsOr(dest: int, src: int, mod: Mod)
    ensures BitOr(BitOr(LowBits(dest), Shl(LowBits(src), 3)), Shl(mod, 6)) == ModRM(dest, src, mod)
  {
    ModRMBits(LowBits(dest), LowBits(src), mod);
  }

  lemma {:induction false} ModRMBits(a: nat, b: nat, c: nat)
    requires a < 8 && b < 8 && c < 4
    ensures BitOr(BitOr(a, Shl(b, 3)), Shl(c, 6)) == 64 * c + 8 * b + a
  {
    var ab := a + 8 * b;
    SmallShifts(0, b, c);
    assert BitOr(a, Shl(b, 3)) == ab by { DisjointOr(BitOp.Or, 3, a, b); }
    assert BitOr(ab, Shl(c, 6)) == ab + 64 * c by { DisjointOr(BitOp.Or, 6, ab, c); }
  }

  lemma HwRegModRM(dest: int, src: int, mod: Mod)
    ensures ModRM(HwReg(dest), HwReg(src), mod) == ModRM(dest, src, mod)
  {
    HwRegLowBits(dest);
    HwRegLowBits(src);
  }

  lemma JumpWord(jcc: Byte)
    ensures ToBytes(Wrap32(0x0FC085 + jcc * 0x100_0000), 4) == [0x85, 0xC0, 0x0F, jcc]
  {
    JumpWordBytes(jcc);
    ToBytes4(0x0FC085 + jcc * 0x100_0000);
  }

  lemma JumpWordBytes(jcc: Byte)
    ensures var word := 0x0FC085 + jcc * 0x100_0000;
            && Wrap32(word) == word && word % 256 == 0x85 && word / 256 % 256 == 0xC0
            && word / 0x1_0000 % 256 == 0x0F && word / 0x100_0000 % 256 == jcc
  {
    var word := 0x0FC085 + jcc * 0x100_0000;
    DivModUnique(word, 256, 0x0FC0 + jcc * 0x1_0000, 0x85);
    DivModUnique(word, 0x1_0000, 0x0F + jcc * 256, 0xC085);
    DivModUnique(word, 0x100_0000, jcc, 0x0FC085);
    DivModUnique(0x0FC0 + jcc * 0x1_0000, 256, 0x0F + jcc * 256, 0xC0);
    DivModUnique(0x0F + jcc * 256, 256, jcc, 0x0F);
  }

  lemma SliceJoin(b: seq<Byte>, from: nat, mid: nat, to: nat)
    requires from <= mid <= to <= |b|
    ensures b[from..to] == b[from..mid] + b[mid..to]
  {
  }

  /** Bytes written one by one, then a four-byte field. */
  lemma HeadThenField(b: seq<Byte>, at: nat, head: seq<Byte>, field: seq<Byte>)
    requires at + |head| + |field| <= |b|
    requires forall j :: 0 <= j < |head| ==> b[at + j] == head[j]
    requires b[at + |head|..at + |head| + |field|] == field
    ensures b[at..at + |head| + |field|] == head + field
  {
    assert b[at..at + |head|] == head;
    SliceJoin(b, at, at + |head|, at + |head| + |field|);
  }

  /** Two four-byte stores that hold TEST EAX, EAX and a jump. */
  lemma TestAndJumpBytes(b: seq<Byte>, at: nat, jcc: Byte, off: int)
    requires at + 8 <= |b| && b[at..at + 4] == ToBytes(Wrap32(0x0FC085 + jcc * 0x100_0000), 4)
    requires b[at + 4..at + 8] == ToBytes(Wrap32(off), 4)
    ensures b[at..at + 2] == Encode(TestEax) && b[at + 2..at + 8] == Encode(Jcc(jcc, Wrap32(off)))
  {
    JumpWord(jcc);
    var four := b[at..at + 4];
    assert b[at..at + 2] == four[..2] && b[at + 2..at + 4] == four[2..];
    SliceJoin(b, at + 2, at + 4, at + 8);
  }

  /** The stores of RI8, in their order, spell the instruction. */
  lemma RI8Layout(b: seq<Byte>, at: nat, opcode: Byte, rm: Reg, reg: LowReg, low: Byte)
    requires at + 4 <= |b|
    ensures var b' := b[at + 1 := opcode][at + 3 := low][at := Rex(rm, HwReg(reg), true)]
                       [at + 2 := ModRM(rm, HwReg(reg), 3)];
            b'[..at] == b[..at] && b'[at..at + 4] == Encode(RI8(opcode, rm, reg, low))
  {
    assert HwReg(reg) == reg;
  }

  /** The last stores of RI32 complete the instruction. */
  lemma RI32Layout(b: seq<Byte>, at: nat, opcode: Byte, mod: Mod, rm: Reg, reg: Reg, imm: Word32, w: bool)
    requires at + 7 <= |b| && b[at + 1] == opcode && b[at + 3..at + 7] == ToBytes(imm, 4)
    ensures var b' := b[at := Rex(rm, reg, w)][at + 2 := ModRM(rm, reg, mod)];
            b'[..at] == b[..at] && b'[at..at + 7] == Encode(RI32(opcode, mod, rm, reg, imm, w))
  {
    var b' := b[at := Rex(rm, reg, w)][at + 2 := ModRM(rm, reg, mod)];
    assert b'[at + 3..at + 7] == b[at + 3..at + 7];
    HeadThenField(b', at, [Rex(rm, reg, w), opcode, ModRM(rm, reg, mod)], ToBytes(imm, 4));
  }

  /** The last stores of RMF complete the instruction. */
  lemma RMFLayout(b: seq<Byte>, at: nat, opcode: Byte, rm: Reg, reg: Reg, imm: Word32)
    requires at + 9 <= |b| && b[at] == 0xF3 && b[at + 2] == 0x0F && b[at + 3] == opcode
    requires b[at + 5..at + 9] == ToBytes(imm, 4)
    ensures var b' := b[at + 1 := Rex(rm, reg, false)][at + 4 := ModRM(rm, reg, 2)];
            b'[..at] == b[..at] && b'[at..at + 9] == Encode(RMF(opcode, rm, reg, imm))
  {
    var b' := b[at + 1 := Rex(rm, reg, false)][at + 4 := ModRM(rm, reg, 2)];
    assert b'[at + 5..at + 9] == b[at + 5..at + 9];
    HeadThenField(b', at, [0xF3, Rex(rm, reg, false), 0x0F, opcode, ModRM(rm, reg, 2)], ToBytes(imm, 4));
  }

  /** The last stores of RMF4 complete the instruction. */
  lemma RMF4Layout(b: seq<Byte>, at: nat, opcode: Byte, rm: Reg, reg: Reg, imm: Word32)
    requires at + 8 <= |b| && b[at + 1] == 0x0F && b[at + 2] == opcode && b[at + 4..at + 8] == ToBytes(imm, 4)
    ensures var b' := b[at := Rex(rm, reg, false)][at + 3 := ModRM(rm, reg, 2)];
            b'[..at] == b[..at] && b'[at..at + 8] == Encode(RMF4(opcode, rm, reg, imm))
  {
    var b' := b[at := Rex(rm, reg, false)][at + 3 := ModRM(rm, reg, 2)];
    assert b'[at + 4..at + 8] == b[at + 4..at + 8];
    HeadThenField(b', at, [Rex(rm, reg, false), 0x0F, opcode, ModRM(rm, reg, 2)], ToBytes(imm, 4));
  }

  lemma AppendInstr(ins: seq<Instr>, i: Instr)
    ensures EncodeAll(ins + [i]) == EncodeAll(ins) + Encode(i)
  {
    EncodeAllConcat(ins, [i]);
    assert [i] + [] == [i];
    EncodeAllCons(i, []);
  }

  /** The parser state p. The C pointers are offsets into the arrays they started from. */
  class JitParsing {
    const code: array<Byte>
    const starts: array<nat>
    const disps: array<Word16>
    var buffer: nat
    var info1: nat
    var info2: nat
    var i1: Word16
    /** The instructions the current call has still to write, and the whole code once it has. */
    ghost var todo: seq<Instr>
    ghost var goal: seq<Byte>

    ghost predicate Valid()
      reads this, code
    {
      && buffer <= code.Length && info1 <= starts.Length && info2 <= disps.Length
      && code as object != starts && code as object != disps && starts as object != disps
      && code[..buffer] + EncodeAll(todo) == goal && |goal| <= code.Length
    }

    ghost function View(): Tables
      requires Valid()
      reads this, code, starts, disps
    {
      Tables(code[..buffer], starts[..info1], disps[..info2], i1)
    }

    constructor (code: array<Byte>, starts: array<nat>, disps: array<Word16>)
      requires code as object != starts && code as object != disps && starts as object != disps
      ensures Valid() && View() == EMPTY && todo == []
      ensures this.code == code && this.starts == starts && this.disps == disps
    {
      this.code, this.starts, this.disps := code, starts, disps;
      buffer, info1, info2, i1 := 0, 0, 0, 0;
      todo, goal := [], [];
    }

    /** Between calls nothing is left to write, and the caller's buffers have room for what op writes. */
    ghost predicate Room(op: Op)
      reads this
    {
      && todo == [] && buffer + |Code(op)| <= code.Length
      && info1 < starts.Length && (HasDisp(op) ==> info2 < disps.Length)
    }

    /** i is the instruction the current call writes next. */
    ghost predicate Next(i: Instr)
      reads this
    {
      todo != [] && todo[0] == i
    }

    /** One instruction has been written; bytes past the new end are as before. */
    twostate predicate Wrote(i: Instr)
      reads this, code
    {
      && Valid() && old(Next(i)) && todo == old(todo)[1..] && old(buffer) <= buffer
      && forall j :: buffer <= j < code.Length ==> code[j] == old(code[j])
    }

    // ----- Bytes -----

    /** x8664_encode_rex, writing at an absolute position. */
    method EncodeRex(at: nat, dest: int, src: int, op64: bool)
      requires at < code.Length
      modifies code
      ensures code[..] == old(code[..])[at := Rex(HwReg(dest), HwReg(src), op64)]
    {
      RexIsOr(dest, src, op64);
      code[at] := BitOr(BitOr(BitOr(Flag(dest > 7), Shl(Flag(src > 7), 2)), Shl(Flag(op64), 3)), 0x40);
    }

    /** x8664_encode_modrm. */
    method EncodeModRM(at: nat, dest: int, src: int, mod: Mod)
      requires at < code.Length
      modifies code
      ensures code[..] == old(code[..])[at := ModRM(dest, src, mod)]
    {
      ModRMIsOr(dest, src, mod);
      code[at] := BitOr(BitOr(LowBits(dest), Shl(LowBits(src), 3)), Shl(mod, 6));
    }

    /** x8664_encode: REX at the given position and ModR/M i bytes later. */
    method EncodeRM(at: nat, dest: int, src: int, i: nat, mod: Mod, op64: bool)
      requires at + i < code.Length && i > 0
      modifies code
      ensures code[..] == old(code[..])[at := Rex(HwReg(dest), HwReg(src), op64)]
                                       [at + i := ModRM(HwReg(dest), HwReg(src), mod)]
    {
      HwRegModRM(dest, src, mod);
      EncodeRex(at, dest, src, op64);
      EncodeModRM(at + i, dest, src, mod);
    }

    /** A 32-bit store through an unaligned pointer on a little-endian host. */
    method Put32(at: nat, im: int)
      requires at + 4 <= code.Length
      modifies code
      ensures code[at..at + 4] == ToBytes(Wrap32(im), 4)
      ensures forall j :: 0 <= j < code.Length && !(at <= j < at + 4) ==> code[j] == old(code[j])
    {
      var v := Wrap32(im);
      ToBytes4(v);
      code[at] := v % 256;
      code[at + 1] := v / 256 % 256;
      code[at + 2] := v / 0x1_0000 % 256;
      code[at + 3] := v / 0x100_0000 % 256;
    }

    /** There is room for the next instruction. */
    lemma NextFits(i: Instr)
      requires Valid() && Next(i)
      ensures buffer + |Encode(i)| <= code.Length
      ensures EncodeAll(todo) == Encode(i) + EncodeAll(todo[1..])
    {
    }

    lemma WrittenSoFar(at: nat, n: nat)
      requires at + n <= code.Length
      ensures code[..at + n] == code[..at] + code[at..at + n]
    {
    }

    /** The n bytes at the buffer are those the next instruction is due: advance past them. */
    method Advance(n: nat, ghost due: seq<Byte>)
      requires Valid() && buffer + n <= code.Length && code[buffer..buffer + n] == due
      requires todo != [] && EncodeAll(todo) == due + EncodeAll(todo[1..])
      modifies `buffer, `todo
      ensures Valid() && buffer == old(buffer) + n && todo == old(todo)[1..]
    {
      ghost var rest := todo[1..];
      assert code[..buffer + n] + EncodeAll(rest) == goal by {
        WrittenSoFar(buffer, n);
        ConcatAssociates(code[..buffer], due, EncodeAll(rest));
      }
      buffer := buffer + n;
      todo := rest;
    }

    // ----- The form macros -----

    method OpI32(opcode: Byte, im: int)
      requires Valid() && Next(Rel32(opcode, Wrap32(im)))
      modifies code, `buffer, `todo
      ensures Wrote(Rel32(opcode, Wrap32(im)))
    {
      NextFits(Rel32(opcode, Wrap32(im)));
      code[buffer] := opcode;
      Put32(buffer + 1, im);
      assert code[..buffer] == old(code[..buffer]);
      HeadThenField(code[..], buffer, [opcode], code[buffer + 1..buffer + 5]);
      Advance(5, Encode(Rel32(opcode, Wrap32(im))));
    }

    method Op0Form(opcode: Byte, dest: LowReg, src: LowReg)
      requires Valid() && Next(Op0(opcode, dest, src))
      modifies code, `buffer, `todo
      ensures Wrote(Op0(opcode, dest, src))
    {
      NextFits(Op0(opcode, dest, src));
      code[buffer] := 0x0F;
      code[buffer + 1] := opcode;
      EncodeModRM(buffer + 2, dest, src, 3);
      assert code[..buffer] == old(code[..buffer]);
      Advance(3, Encode(Op0(opcode, dest, src)));
    }

    method RRForm(opcode: Byte, dest: int, src: int, op64: bool)
      requires Valid() && Next(RR(opcode, HwReg(dest), HwReg(src), op64))
      modifies code, `buffer, `todo
      ensures Wrote(RR(opcode, HwReg(dest), HwReg(src), op64))
    {
      NextFits(RR(opcode, HwReg(dest), HwReg(src), op64));
      code[buffer + 1] := opcode;
      EncodeRM(buffer, dest, src, 2, 3, op64);
      assert code[..buffer] == old(code[..buffer]);
      Advance(3, Encode(RR(opcode, HwReg(dest), HwReg(src), op64)));
    }

    method RR0Form(opcode: Byte, dest: int, src: int, op64: bool)
      requires Valid() && Next(RR0(opcode, HwReg(dest), HwReg(src), op64))
      modifies code, `buffer, `todo
      ensures Wrote(RR0(opcode, HwReg(dest), HwReg(src), op64))
    {
      NextFits(RR0(opcode, HwReg(dest), HwReg(src), op64));
      code[buffer + 1] := 0x0F;
      code[buffer + 2] := opcode;
      EncodeRM(buffer, dest, src, 3, 3, op64);
      assert code[..buffer] == old(code[..buffer]);
      Advance(4, Encode(RR0(opcode, HwReg(dest), HwReg(src), op64)));
    }

    method RRFForm(prefix: Byte, opcode: Byte, dest: int, src: int, op64: bool)
      requires Valid() && Next(RRF(prefix, opcode, HwReg(src), HwReg(dest), op64))
      modifies code, `buffer, `todo
      ensures Wrote(RRF(prefix, opcode, HwReg(src), HwReg(dest), op64))
    {
      NextFits(RRF(prefix, opcode, HwReg(src), HwReg(dest), op64));
      code[buffer] := prefix;
      code[buffer + 2] := 0x0F;
      code[buffer + 3] := opcode;
      EncodeRM(buffer + 1, src, dest, 3, 3, op64);
      assert code[..buffer] == old(code[..buffer]);
      Advance(5, Encode(RRF(prefix, opcode, HwReg(src), HwReg(dest), op64)));
    }

    method RMFForm(opcode: Byte, dest: int, src: int, off: int)
      requires Valid() && Next(RMF(opcode, HwReg(dest), HwReg(src), Wrap32(off)))
      modifies code, `buffer, `todo
      ensures Wrote(RMF(opcode, HwReg(dest), HwReg(src), Wrap32(off)))
    {
      ghost var i := RMF(opcode, HwReg(dest), HwReg(src), Wrap32(off));
      NextFits(i);
      code[buffer] := 0xF3;
      code[buffer + 2] := 0x0F;
      code[buffer + 3] := opcode;
      Put32(buffer + 5, off);
      ghost var b := code[..];
      assert b[..buffer] == old(code[..buffer]);
      EncodeRM(buffer + 1, dest, src, 3, 2, false);
      RMFLayout(b, buffer, opcode, HwReg(dest), HwReg(src), Wrap32(off));
      Advance(9, Encode(i));
    }

    method RMF4Form(opcode: Byte, dest: int, src: int, off: int)
      requires Valid() && Next(RMF4(opcode, HwReg(dest), HwReg(src), Wrap32(off)))
      modifies code, `buffer, `todo
      ensures Wrote(RMF4(opcode, HwReg(dest), HwReg(src), Wrap32(off)))
    {
      ghost var i := RMF4(opcode, HwReg(dest), HwReg(src), Wrap32(off));
      NextFits(i);
      code[buffer + 1] := 0x0F;
      code[buffer + 2] := opcode;
      Put32(buffer + 4, off);
      ghost var b := code[..];
      assert b[..buffer] == old(code[..buffer]);
      EncodeRM(buffer, dest, src, 3, 2, false);
      RMF4Layout(b, buffer, opcode, HwReg(dest), HwReg(src), Wrap32(off));
      Advance(8, Encode(i));
    }

    method RI8Form(opcode: Byte, dest: int, src: LowReg, im: int)
      requires Valid() && Next(RI8(opcode, HwReg(dest), src, im % 256))
      modifies code, `buffer, `todo
      ensures Wrote(RI8(opcode, HwReg(dest), src, im % 256))
    {
      ghost var i := RI8(opcode, HwReg(dest), src, im % 256);
      NextFits(i);
      code[buffer + 1] := opcode;
      code[buffer + 3] := im % 256;
      EncodeRM(buffer, dest, src, 2, 3, true);
      RI8Layout(old(code[..]), buffer, opcode, HwReg(dest), src, im % 256);
      Advance(4, Encode(i));
    }

    method RI32Form(opcode: Byte, dest: int, src: int, im: int, mod: Mod, op64: bool)
      requires Valid() && Next(RI32(opcode, mod, HwReg(dest), HwReg(src), Wrap32(im), op64))
      modifies code, `buffer, `todo
      ensures Wrote(RI32(opcode, mod, HwReg(dest), HwReg(src), Wrap32(im), op64))
    {
      ghost var i := RI32(opcode, mod, HwReg(dest), HwReg(src), Wrap32(im), op64);
      NextFits(i);
      code[buffer + 1] := opcode;
      Put32(buffer + 3, im);
      ghost var b := code[..];
      assert b[..buffer] == old(code[..buffer]);
      EncodeRM(buffer, dest, src, 2, mod, op64);
      RI32Layout(b, buffer, opcode, mod, HwReg(dest), HwReg(src), Wrap32(im), op64);
      Advance(7, Encode(i));
    }

    /** JZ and JNZ: one 32-bit store holds TEST EAX, EAX and the first two bytes of the jump. */
    method TestAndJump(jcc: Byte, off: int)
      requires Valid() && todo == [TestEax] + [Jcc(jcc, Wrap32(off))]
      modifies code, `buffer, `todo
      ensures Valid() && todo == [] && old(buffer) <= buffer
      ensures forall j :: buffer <= j < code.Length ==> code[j] == old(code[j])
    {
      TestAndJumpFits(jcc, off);
      Put32(buffer, 0x0FC085 + jcc * 0x100_0000);
      ghost var four := code[buffer..buffer + 4];
      Put32(buffer + 4, off);
      assert code[..buffer] == old(code[..buffer]);
      assert code[buffer..buffer + 4] == four;
      TestAndJumpBytes(code[..], buffer, jcc, off);
      NextFits(TestEax);
      Advance(2, Encode(TestEax));
      NextFits(Jcc(jcc, Wrap32(off)));
      Advance(6, Encode(Jcc(jcc, Wrap32(off))));
    }

    lemma TestAndJumpFits(jcc: Byte, off: int)
      requires Valid() && todo == [TestEax] + [Jcc(jcc, Wrap32(off))]
      ensures buffer + 8 <= code.Length
    {
      AppendInstr([TestEax], Jcc(jcc, Wrap32(off)));
      AppendInstr([], TestEax);
      assert [] + [TestEax] == [TestEax];
    }

    method PushForm(r: Reg)
      requires Valid() && Next(Push(r))
      modifies code, `buffer, `todo
      ensures Wrote(Push(r))
    {
      NextFits(Push(r));
      if r < 8 {
        code[buffer] := 80 + r;
        assert code[..buffer] == old(code[..buffer]);
        Advance(1, Encode(Push(r)));
      } else {
        code[buffer] := 0x41;
        code[buffer + 1] := 80 + r - 8;
        assert code[..buffer] == old(code[..buffer]);
        Advance(2, Encode(Push(r)));
      }
    }

    method PopForm(r: Reg)
      requires Valid() && Next(Pop(r))
      modifies code, `buffer, `todo
      ensures Wrote(Pop(r))
    {
      NextFits(Pop(r));
      if r < 8 {
        code[buffer] := 88 + r;
        assert code[..buffer] == old(code[..buffer]);
        Advance(1, Encode(Pop(r)));
      } else {
        code[buffer] := 0x41;
        code[buffer + 1] := 88 + r - 8;
        assert code[..buffer] == old(code[..buffer]);
        Advance(2, Encode(Pop(r)));
      }
    }

    /** CDQ and RET. */
    method OneByte(b: Byte, ghost i: Instr)
      requires Valid() && Next(i) && Encode(i) == [b]
      modifies code, `buffer, `todo
      ensures Wrote(i)
    {
      NextFits(i);
      code[buffer] := b;
      assert code[..buffer] == old(code[..buffer]);
      Advance(1, Encode(i));
    }

    // ----- Bookkeeping -----

    /** JIT__INFO, at the start of the call that emits op. */
    method Info(ghost op: Op)
      requires Valid() && Room(op)
      modifies starts, `info1, `i1, `todo, `goal
      ensures Valid() && todo == Lower(op) && goal == code[..buffer] + Code(op)
      ensures info1 == old(info1) + 1 && starts[..info1] == old(starts[..info1]) + [buffer]
      ensures i1 == NextCount(old(i1))
    {
      starts[info1] := buffer;
      info1 := info1 + 1;
      i1 := (i1 + 1) % TWO_16;
      todo, goal := Lower(op), code[..buffer] + Code(op);
    }

    /** JIT__INFO2. */
    method Info2()
      requires Valid() && info2 < disps.Length
      modifies disps, `info2
      ensures Valid() && info2 == old(info2) + 1 && disps[..info2] == old(disps[..info2]) + [i1]
    {
      disps[info2] := i1;
      info2 := info2 + 1;
    }

    /** A whole call: the instructions of op were written, info1 got the old position, the counter
        advanced, info2 got the counter if op has a displacement, and later bytes are as before. */
    twostate predicate Emitted(op: Op)
      reads this, code, starts, disps
    {
      && old(Valid()) && Valid() && todo == [] && goal == old(code[..buffer]) + Code(op)
      && starts[..info1] == old(starts[..info1]) + [old(buffer)]
      && i1 == NextCount(old(i1))
      && disps[..info2] == old(disps[..info2]) + (if HasDisp(op) then [i1] else [])
      && old(buffer) <= buffer
      && forall j :: buffer <= j < code.Length ==> code[j] == old(code[j])
    }

    /** An emitter call is one step of the run that the tables describe. */
    twostate lemma EmittedIsEmit(op: Op)
      requires Emitted(op)
      ensures View() == Emit(op, old(View()))
    {
      assert code[..buffer] + EncodeAll([]) == code[..buffer];
    }

    /** If the tables describe the run so far, after one more emitter call they describe the longer run. */
    twostate lemma CallExtendsRun(ops: seq<Op>, op: Op)
      requires Emitted(op) && old(View()) == EmitAll(ops)
      ensures View() == EmitAll(ops + [op])
    {
      EmittedIsEmit(op);
      EmitAllSnoc(ops, op);
    }

    // ----- Macros the emitters share -----

    method MovForm(d: int, s: int)
      requires Valid() && Next(Mov(d, s))
      modifies code, `buffer, `todo
      ensures Wrote(Mov(d, s))
    {
      RRForm(0x89, d, s, true);
    }

    method MovI32(d: int, im: int)
      requires Valid() && Next(MovImm(d, im))
      modifies code, `buffer, `todo
      ensures Wrote(MovImm(d, im))
    {
      RI32Form(0xC7, d, 0, im, 3, true);
    }

    /** `if (s != d) MOV(d, s)`. */
    method CopyForm(d: int, s: int)
      requires Valid() && CopyTo(d, s) <= todo
      modifies code, `buffer, `todo
      ensures Valid() && todo == old(todo)[|CopyTo(d, s)|..] && old(buffer) <= buffer
      ensures forall j :: buffer <= j < code.Length ==> code[j] == old(code[j])
    {
      if s != d {
        MovForm(d, s);
      }
    }

    /** The ADD, SUB, AND, OR and XOR macros. */
    method AluForm(k: BinOp, d: int, t: int)
      requires k != Mul && Valid() && Next(AluInstr(k, d, t))
      modifies code, `buffer, `todo
      ensures Wrote(AluInstr(k, d, t))
    {
      match k
      case Add => RRForm(0x01, d, t, true);
      case Sub => RRForm(0x29, d, t, true);
      case And => RRForm(0x21, d, t, true);
      case Or => RRForm(0x09, d, t, true);
      case Xor => RRForm(0x31, d, t, true);
    }

    /** The three-way comparison that LESS, BRANCH and NBRANCH start with. */
    method CompareForm(s: int, t: int)
      requires Valid() && Next(CompareInstr(s, t))
      modifies code, `buffer, `todo
      ensures Wrote(CompareInstr(s, t))
    {
      if s == R0 {
        RI8Form(0x83, t, 7, 0);
      } else if t == R0 {
        RI8Form(0x83, s, 7, 0);
      } else {
        RRForm(0x39, s, t, true);
      }
    }

    /** SETcc on AL, then zero-extend it. */
    method SetThenExtend(setcc: Byte, ghost rest: seq<Instr>)
      requires Valid() && todo == [Op0(setcc, 0, 0), MovZx()] + rest
      modifies code, `buffer, `todo
      ensures Valid() && todo == rest && old(buffer) <= buffer
      ensures forall j :: buffer <= j < code.Length ==> code[j] == old(code[j])
    {
      Op0Form(setcc, 0, 0);
      Op0Form(0xB6, 0, 0);
    }

    // ----- Integer emitters -----

    /** The general path: copy the first operand, then operate with the second. */
    method TwoOperands(k: BinOp, d: int, s: int, t: int)
      requires k != Mul && Valid() && todo == CopyTo(d, s) + [AluInstr(k, d, t)]
      modifies code, `buffer, `todo
      ensures Valid() && todo == [] && old(buffer) <= buffer
      ensures forall j :: buffer <= j < code.Length ==> code[j] == old(code[j])
    {
      CopyForm(d, s);
      AluForm(k, d, t);
    }

    /** JIT_ADD and JIT_SUB. */
    method EmitAddSub(k: BinOp, d: int, s: int, t: int)
      requires k == Add || k == Sub
      requires Valid() && Room(Op.Alu(k, d, s, t))
      modifies this, code, starts, disps
      ensures Emitted(Op.Alu(k, d, s, t))
    {
      Info(Op.Alu(k, d, s, t));
      if d != R0 {
        if s == R0 && t == R0 {
          MovI32(d, 0);
        } else if s == R0 {
          CopyForm(d, t);
        } else if t == R0 {
          CopyForm(d, s);
        } else {
          TwoOperands(k, d, s, t);
        }
      }
    }

    /** JIT_MUL. */
    method EmitMul(d: int, s: int, t: int)
      requires Valid() && Room(Op.Alu(Mul, d, s, t))
      modifies this, code, starts, disps
      ensures Emitted(Op.Alu(Mul, d, s, t))
    {
      Info(Op.Alu(Mul, d, s, t));
      if d != R0 {
        if s == R0 || t == R0 {
          MovI32(d, 0);
        } else {
          CopyForm(d, s);
          RR0Form(0xAF, t, d, true);
        }
      }
    }

    /** JIT_AND, JIT_OR and JIT_XOR. */
    method EmitLogic(k: BinOp, d: int, s: int, t: int)
      requires k == BinOp.And || k == BinOp.Or || k == BinOp.Xor
      requires Valid() && Room(Op.Alu(k, d, s, t))
      modifies this, code, starts, disps
      ensures Emitted(Op.Alu(k, d, s, t))
    {
      Info(Op.Alu(k, d, s, t));
      if d != R0 {
        if s == t {
          if s == R0 {
            MovI32(d, 0);
          } else {
            CopyForm(d, s);
          }
        } else if s == R0 {
          CopyForm(d, t);
        } else if t == R0 {
          CopyForm(d, s);
        } else {
          TwoOperands(k, d, s, t);
        }
      }
    }

    /** The part of JIT_DIV that uses RAX and RDX. */
    method DivideInRax(d: int, s: int, t: int)
      requires Valid() && todo == [Push(RDX), Mov(RAX, s), Cdq, Idiv(t), Mov(d, RAX), Pop(RDX)]
      modifies code, `buffer, `todo
      ensures Valid() && todo == [] && old(buffer) <= buffer
      ensures forall j :: buffer <= j < code.Length ==> code[j] == old(code[j])
    {
      PushForm(RDX);
      MovForm(RAX, s);
      OneByte(0x99, Cdq);
      assert todo == [Idiv(t), Mov(d, RAX), Pop(RDX)];
      RRForm(0xF7, t, 7, true);
      MovForm(d, RAX);
      PopForm(RDX);
    }

    /** JIT_DIV. */
    method EmitDiv(d: int, s: int, t: int)
      requires Valid() && Room(Op.Div(d, s, t))
      modifies this, code, starts, disps
      ensures Emitted(Op.Div(d, s, t))
    {
      Info(Op.Div(d, s, t));
      if d != R0 {
        if s == R0 || t == R0 {
          MovI32(d, 0);
        } else {
          DivideInRax(d, s, t);
        }
      }
    }

    /** The part of JIT_SHIFTL and JIT_SHIFTR that uses RCX. */
    method ShiftByRcx(left: bool, d: int, t: int)
      requires Valid() && todo == [Push(RCX), Mov(RCX, t), ShiftInstr(left, d), Pop(RCX)]
      modifies code, `buffer, `todo
      ensures Valid() && todo == [] && old(buffer) <= buffer
      ensures forall j :: buffer <= j < code.Length ==> code[j] == old(code[j])
    {
      PushForm(RCX);
      MovForm(RCX, t);
      RRForm(0xD3, d, if left then 4 else 7, true);
      PopForm(RCX);
    }

    /** JIT_SHIFTL and JIT_SHIFTR. */
    method EmitShift(left: bool, d: int, s: int, t: int)
      requires Valid() && Room(Op.Shift(left, d, s, t))
      modifies this, code, starts, disps
      ensures Emitted(Op.Shift(left, d, s, t))
    {
      Info(Op.Shift(left, d, s, t));
      if d != R0 {
        if s == R0 {
          MovI32(d, 0);
        } else if t == R0 {
          if s != d { MovI32(s, t); }
        } else {
          CopyForm(d, s);
          ShiftByRcx(left, d, t);
        }
      }
    }

    /** JIT_LESS. */
    method EmitLess(d: int, s: int, t: int)
      requires Valid() && Room(Op.Less(d, s, t))
      modifies this, code, starts, disps
      ensures Emitted(Op.Less(d, s, t))
    {
      Info(Op.Less(d, s, t));
      if d != R0 {
        if s == t {
          MovI32(d, 0);
        } else {
          CompareForm(s, t);
          SetThenExtend(0x9C, [Mov(d, RAX)]);
          MovForm(d, RAX);
        }
      }
    }

    /** JIT_ADDI. */
    method EmitAddImm(d: int, s: int, i: int)
      requires Valid() && Room(Op.AddImm(d, s, i))
      modifies this, code, starts, disps
      ensures Emitted(Op.AddImm(d, s, i))
    {
      Info(Op.AddImm(d, s, i));
      if d != R0 {
        if s == R0 {
          MovI32(d, i);
        }
      } else {
        CopyForm(d, s);
        if i != 0 { MovForm(d, i); }
      }
    }

    /** JIT_SHIFTLI and JIT_SHIFTRI. */
    method EmitShiftImm(left: bool, d: int, s: int, i: int)
      requires Valid() && Room(Op.ShiftImm(left, d, s, i))
      modifies this, code, starts, disps
      ensures Emitted(Op.ShiftImm(left, d, s, i))
    {
      Info(Op.ShiftImm(left, d, s, i));
      if d != R0 {
        if s == R0 {
          MovI32(d, 0);
        } else if i == R0 {
          if s != d { MovI32(d, s); }
          RI8Form(0xC1, d, if left then 4 else 7, i);
        }
      }
    }

    /** JIT_LOAD32 and JIT_LOAD64. */
    method EmitLoad(wide: bool, d: int, s: int, o: int)
      requires Valid() && Room(Op.Load(wide, d, s, o))
      modifies this, code, starts, disps
      ensures Emitted(Op.Load(wide, d, s, o))
    {
      Info(Op.Load(wide, d, s, o));
      if d != R0 && s != R0 {
        if s == RSP {
          MovForm(RAX, s);
          RI32Form(0x8B, RAX, d, o, 2, wide);
        } else {
          RI32Form(0x8B, s, d, o, 2, wide);
        }
      }
    }

    /** JIT_STORE32 and JIT_STORE64, whose macro receives s as the offset and o as the source. */
    method EmitStore(wide: bool, d: int, o: int, s: int)
      requires Valid() && Room(Op.Store(wide, d, o, s))
      modifies this, code, starts, disps
      ensures Emitted(Op.Store(wide, d, o, s))
    {
      Info(Op.Store(wide, d, o, s));
      if d != R0 && s != R0 {
        if s == RSP {
          MovForm(RAX, s);
          RI32Form(0x89, d, o, RAX, 2, wide);
        } else {
          RI32Form(0x89, d, o, s, 2, wide);
        }
      }
    }

    // ----- Control flow -----

    /** JIT_JUMP. */
    method EmitJump(o: int)
      requires Valid() && Room(JumpTo(o))
      modifies this, code, starts, disps
      ensures Emitted(JumpTo(o))
    {
      Info(JumpTo(o));
      if o != R0 || o < -1 {
        OpI32(0xE9, o);
        Info2();
      }
    }

    /** What JIT_BRANCH and JIT_NBRANCH have in common. */
    method ConditionalJump(jcc: Byte, s: int, t: int, o: int)
      requires Valid() && todo == LowerBranch(jcc, s, t, o)
      modifies code, `buffer, `todo
      ensures Valid() && todo == [] && old(buffer) <= buffer
      ensures forall j :: buffer <= j < code.Length ==> code[j] == old(code[j])
    {
      CompareForm(s, t);
      SetThenExtend(0x94, [TestEax] + [Jcc(jcc, Wrap32(o))]);
      TestAndJump(jcc, o);
    }

    /** JIT_BRANCH. */
    method EmitBranch(s: int, t: int, o: int)
      requires Valid() && Room(Branch(s, t, o))
      modifies this, code, starts, disps
      ensures Emitted(Branch(s, t, o))
    {
      BranchCode(s, t, o);
      if s == t {
        EmitJump(o);
        return;
      }
      Info(Branch(s, t, o));
      if o > 0 || o < -1 {
        ConditionalJump(0x85, s, t, o);
        Info2();
      }
    }

    /** JIT_NBRANCH. */
    method EmitNBranch(s: int, t: int, o: int)
      requires Valid() && Room(NBranch(s, t, o))
      modifies this, code, starts, disps
      ensures Emitted(NBranch(s, t, o))
    {
      Info(NBranch(s, t, o));
      if (o > 0 || o < -1) && s != t {
        ConditionalJump(0x84, s, t, o);
        Info2();
      }
    }

    /** JIT_CALL. */
    method EmitCall(o: int)
      requires Valid() && Room(Call(o))
      modifies this, code, starts, disps
      ensures Emitted(Call(o))
    {
      Info(Call(o));
      if o > 0 || o < -1 {
        OpI32(0xE8, o);
        Info2();
      }
    }

    /** JIT_CALLEX. */
    method EmitCallEx(s: int)
      requires Valid() && Room(CallEx(s))
      modifies this, code, starts, disps
      ensures Emitted(CallEx(s))
    {
      Info(CallEx(s));
      if s != R0 {
        RRForm(0xFF, s, 2, true);
      }
    }

    /** JIT_RETURN. */
    method EmitReturn()
      requires Valid() && Room(Return)
      modifies this, code, starts, disps
      ensures Emitted(Return)
    {
      Info(Return);
      OneByte(0xC3, Ret);
    }

    // ----- Floating-point emitters: bytes only -----

    /** JIT_STOREF. */
    method EmitStoreF(d: int, o: int, s: int)
      requires Valid() && Room(StoreF(d, o, s))
      modifies this, code, starts, disps
      ensures Emitted(StoreF(d, o, s))
    {
      Info(StoreF(d, o, s));
      if d != R0 && s != R0 {
        if d == RSP {
          MovForm(RAX, d);
          RMFForm(0x11, RAX, s, o);
        } else {
          RMFForm(0x11, d, s, o);
        }
      }
    }

    /** JIT_ITOF. */
    method EmitIntToF(d: int, s: int)
      requires Valid() && Room(IntToF(d, s))
      modifies this, code, starts, disps
      ensures Emitted(IntToF(d, s))
    {
      Info(IntToF(d, s));
      RRFForm(0x66, 0xEF, d, d, false);
      if s != R0 {
        RRFForm(0xF3, 0x2A, d, s, true);
      }
    }

    /** JIT_FTOI. */
    method EmitFToInt(d: int, s: int)
      requires Valid() && Room(FToInt(d, s))
      modifies this, code, starts, disps
      ensures Emitted(FToInt(d, s))
    {
      Info(FToInt(d, s));
      if d != R0 {
        RRFForm(0xF3, 0x2D, d, s, true);
      }
    }

    /** JIT_ADDF, JIT_SUBF, JIT_MULF, JIT_DIVF, JIT_MINF and JIT_MAXF. */
    method EmitArithF(f: FloatOp, d: int, s: int, t: int)
      requires Valid() && Room(ArithF(f, d, s, t))
      modifies this, code, starts, disps
      ensures Emitted(ArithF(f, d, s, t))
    {
      Info(ArithF(f, d, s, t));
      if s != d {
        RRFForm(0xF3, 0x10, d, s, false);
      }
      RRFForm(0xF3, FloatOpcode(f), d, t, false);
    }

    /** JIT_LESSF. */
    method EmitLessF(d: int, s: int, t: int)
      requires Valid() && Room(LessF(d, s, t))
      modifies this, code, starts, disps
      ensures Emitted(LessF(d, s, t))
    {
      Info(LessF(d, s, t));
      RR0Form(0x2E, t, s, false);
      SetThenExtend(0x97, [Mov(d, RAX)]);
      MovForm(d, RAX);
    }

    /** JIT_LOADF4. */
    method EmitLoadF4(d: int, s: int, o: int)
      requires Valid() && Room(LoadF4(d, s, o))
      modifies this, code, starts, disps
      ensures Emitted(LoadF4(d, s, o))
    {
      Info(LoadF4(d, s, o));
      if d != R0 && s != R0 {
        if s == RSP {
          MovForm(RAX, s);
          RMF4Form(0x10, RAX, d, o);
        } else {
          RMF4Form(0x10, s, d, o);
        }
      }
    }

    /** JIT_STOREF4. */
    method EmitStoreF4(d: int, o: int, s: int)
      requires Valid() && Room(StoreF4(d, o, s))
      modifies this, code, starts, disps
      ensures Emitted(StoreF4(d, o, s))
    {
      Info(StoreF4(d, o, s));
      if d != R0 {
        if d == RSP {
          MovForm(RAX, d);
          RMF4Form(0x11, RAX, s, o);
        } else {
          RMF4Form(0x11, d, s, o);
        }
      }
    }

    /** JIT_ADDF4, JIT_SUBF4, JIT_MULF4, JIT_DIVF4, JIT_MINF4 and JIT_MAXF4. */
    method EmitArithF4(f: FloatOp, d: int, s: int, t: int)
      requires Valid() && Room(ArithF4(f, d, s, t))
      modifies this, code, starts, disps
      ensures Emitted(ArithF4(f, d, s, t))
    {
      Info(ArithF4(f, d, s, t));
      if s != d {
        RR0Form(0x10, s, d, false);
      }
      RR0Form(FloatOpcode(f), t, d, false);
    }
  }
}

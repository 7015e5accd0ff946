/** The floating-point calls. Arithmetic is symbolic: which operation is applied to which operands, not what
    IEEE 754 makes of it. The other calls are pinned to the opcodes of the Intel SDM, Volume 2. */
module JitFloats {
  import opened Bits
  import opened X64Encoding
  import opened JitIr
  import opened JitTables

  /** What a vector register (or one lane of it) holds in terms of the registers at the start. */
  datatype Value = Initial(r: Reg) | Applied(f: FloatOp, x: Value, y: Value)

  type FloatRegs = s: seq<Value> | |s| == 16 witness seq(16, _ => Initial(0))

  /** The operation of an arithmetic opcode, scalar (ADDSS ...) or packed (ADDPS ...). */
  function FloatOpOf(op: Byte): Option<FloatOp> {
    if op == 0x58 then Some(AddF)
    else if op == 0x59 then Some(MulF)
    else if op == 0x5C then Some(SubF)
    else if op == 0x5D then Some(MinF)
    else if op == 0x5E then Some(DivF)
    else if op == 0x5F then Some(MaxF)
    else None
  }

  /** A move or an arithmetic instruction between vector registers: its destination is also the first
      operand. */
  function ExecFloat(i: Instr, regs: FloatRegs): Option<FloatRegs> {
    match i
    case RRF(0xF3, op, rm, reg, false) => FloatEffect(op, rm, reg, regs)
    case RR0(op, rm, reg, false) => FloatEffect(op, rm, reg, regs)
    case _ => None
  }

  function FloatEffect(op: Byte, rm: Reg, reg: Reg, regs: FloatRegs): Option<FloatRegs> {
    if op == 0x10 then Some(regs[reg := regs[rm]])
    else
      match FloatOpOf(op)
      case None => None
      case Some(f) => Some(regs[reg := Applied(f, regs[reg], regs[rm])])
  }

  function RunFloat(ins: seq<Instr>, regs: FloatRegs): Option<FloatRegs> {
    if ins == [] then Some(regs)
    else
      match ExecFloat(ins[0], regs)
      case None => None
      case Some(regs') => RunFloat(ins[1..], regs')
  }

  function RunFloatBytes(b: seq<Byte>, regs: FloatRegs): Option<FloatRegs> {
    match DecodeAll(b)
    case None => None
    case Some(ins) => RunFloat(ins, regs)
  }

  /** The scalar or the packed call. */
  function ArithOp(packed: bool, f: FloatOp, d: Reg, s: Reg, t: Reg): Op {
    if packed then ArithF4(f, d, s, t) else ArithF(f, d, s, t)
  }

  function ArithInstr(packed: bool, opcode: Byte, d: Reg, s: Reg): Instr {
    if packed then RR0(opcode, s, d, false) else RRF(0xF3, opcode, s, d, false)
  }

  lemma ArithLowered(packed: bool, f: FloatOp, d: Reg, s: Reg, t: Reg)
    ensures Lower(ArithOp(packed, f, d, s, t))
         == (if s != d then [ArithInstr(packed, 0x10, d, s)] else []) + [ArithInstr(packed, FloatOpcode(f), d, t)]
  {
    HwRegOfReg(d);
    HwRegOfReg(s);
    HwRegOfReg(t);
  }

  lemma RunArith(packed: bool, f: FloatOp, d: Reg, t: Reg, regs: FloatRegs)
    ensures RunFloat([ArithInstr(packed, FloatOpcode(f), d, t)], regs) == Some(regs[d := Applied(f, regs[d], regs[t])])
  {
    assert FloatOpOf(FloatOpcode(f)) == Some(f);
    assert [ArithInstr(packed, FloatOpcode(f), d, t)][1..] == [];
  }

  /** The code applies the named operation to the first operand and to the second one as the move of the first
      has left it. */
  lemma ArithCode(packed: bool, f: FloatOp, d: Reg, s: Reg, t: Reg, regs: FloatRegs)
    ensures RunFloatBytes(Code(ArithOp(packed, f, d, s, t)), regs)
         == Some(regs[d := Applied(f, regs[s], if t == d then regs[s] else regs[t])])
  {
    var code := Lower(ArithOp(packed, f, d, s, t));
    OtherOpWellFormed(ArithOp(packed, f, d, s, t));
    RoundTrip(code);
    ArithLowered(packed, f, d, s, t);
    if s == d {
      assert code == [ArithInstr(packed, FloatOpcode(f), d, t)];
      RunArith(packed, f, d, t, regs);
    } else {
      var move, regs' := ArithInstr(packed, 0x10, d, s), regs[d := regs[s]];
      assert ExecFloat(move, regs) == Some(regs');
      assert code[0] == move && code[1..] == [ArithInstr(packed, FloatOpcode(f), d, t)];
      RunArith(packed, f, d, t, regs');
      assert regs'[d := Applied(f, regs'[d], regs'[t])] == regs[d := Applied(f, regs'[d], regs'[t])];
    }
  }

  /** It applies the operation to the two operands, for all register contents, exactly when the move does not
      overwrite the second. */
  lemma ArithExact(packed: bool, f: FloatOp, d: Reg, s: Reg, t: Reg)
    ensures (forall regs: FloatRegs ::
               RunFloatBytes(Code(ArithOp(packed, f, d, s, t)), regs) == Some(regs[d := Applied(f, regs[s], regs[t])]))
       <==> t != d || s == d
  {
    if t != d || s == d {
      forall regs: FloatRegs
        ensures RunFloatBytes(Code(ArithOp(packed, f, d, s, t)), regs) == Some(regs[d := Applied(f, regs[s], regs[t])])
      {
        ArithCode(packed, f, d, s, t, regs);
      }
    } else {
      var regs: FloatRegs := seq(16, i requires 0 <= i < 16 => Initial(i));
      ArithCode(packed, f, d, s, t, regs);
      assert regs[s] != regs[t];
      assert regs[d := Applied(f, regs[s], regs[s])][d] != regs[d := Applied(f, regs[s], regs[t])][d];
    }
  }

  // ----- The other calls -----

  lemma OneCode(i: Instr)
    ensures EncodeAll([i]) == Encode(i)
  {
    assert [i] + [] == [i];
    EncodeAllCons(i, []);
  }

  lemma TwoCodes(i: Instr, j: Instr)
    ensures EncodeAll([i, j]) == Encode(i) + Encode(j)
  {
    assert [i] + [j] == [i, j];
    EncodeAllCons(i, [j]);
    OneCode(j);
  }

  /** LESSF: UCOMISS, SETA AL, MOVZX EAX, AL and MOV. */
  lemma LessFBytes(d: Reg, s: Reg, t: Reg)
    ensures Code(LessF(d, s, t))
         == [Rex(t, s, false), 0x0F, 0x2E, ModRM(t, s, 3), 0x0F, 0x97, 0xC0, 0x0F, 0xB6, 0xC0]
            + [Rex(d, 0, true), 0x89, ModRM(d, 0, 3)]
  {
    HwRegOfReg(d);
    HwRegOfReg(s);
    HwRegOfReg(t);
    var code := Lower(LessF(d, s, t));
    assert code == [code[0], code[1]] + [code[2], code[3]];
    EncodeAllConcat([code[0], code[1]], [code[2], code[3]]);
    TwoCodes(code[0], code[1]);
    TwoCodes(code[2], code[3]);
  }

  /** ITOF: PXOR and CVTSI2SS. FTOI: CVTSS2SI. */
  lemma ConversionBytes(d: Reg, s: Reg)
    ensures Code(IntToF(d, s))
         == [0x66, Rex(d, d, false), 0x0F, 0xEF, ModRM(d, d, 3)] + [0xF3, Rex(s, d, true), 0x0F, 0x2A, ModRM(s, d, 3)]
    ensures Code(FToInt(d, s)) == [0xF3, Rex(s, d, true), 0x0F, 0x2D, ModRM(s, d, 3)]
  {
    HwRegOfReg(d);
    HwRegOfReg(s);
    TwoCodes(RRF(0x66, 0xEF, d, d, false), RRF(0xF3, 0x2A, s, d, true));
    OneCode(RRF(0xF3, 0x2D, s, d, true));
  }

  /** The base a memory call addresses: register 4, the stack pointer, goes through register 0. */
  function Base(r: Reg): Reg { if r == 4 then 0 else r }

  function BaseMove(r: Reg): seq<Byte> {
    if r == 4 then [Rex(0, 4, true), 0x89, ModRM(0, 4, 3)] else []
  }

  /** STOREF: MOVSS to memory. */
  lemma StoreFBytes(d: Reg, o: int, s: Reg)
    ensures Code(StoreF(d, o, s))
         == BaseMove(d) + ([0xF3, Rex(Base(d), s, false), 0x0F, 0x11, ModRM(Base(d), s, 2)] + ToBytes(Wrap32(o), 4))
  {
    HwRegOfReg(d);
    HwRegOfReg(s);
    var i := RMF(0x11, Base(d), s, Wrap32(o));
    assert Lower(StoreF(d, o, s)) == (if d == 4 then [Mov(0, 4)] else []) + [i];
    AfterBaseMove(d, i);
  }

  /** LOADF4: MOVUPS from memory. */
  lemma LoadF4Bytes(d: Reg, s: Reg, o: int)
    ensures Code(LoadF4(d, s, o))
         == BaseMove(s) + ([Rex(Base(s), d, false), 0x0F, 0x10, ModRM(Base(s), d, 2)] + ToBytes(Wrap32(o), 4))
  {
    HwRegOfReg(d);
    HwRegOfReg(s);
    var i := RMF4(0x10, Base(s), d, Wrap32(o));
    assert Lower(LoadF4(d, s, o)) == (if s == 4 then [Mov(0, 4)] else []) + [i];
    AfterBaseMove(s, i);
  }

  /** STOREF4: MOVUPS to memory. */
  lemma StoreF4Bytes(d: Reg, o: int, s: Reg)
    ensures Code(StoreF4(d, o, s))
         == BaseMove(d) + ([Rex(Base(d), s, false), 0x0F, 0x11, ModRM(Base(d), s, 2)] + ToBytes(Wrap32(o), 4))
  {
    HwRegOfReg(d);
    HwRegOfReg(s);
    var i := RMF4(0x11, Base(d), s, Wrap32(o));
    assert Lower(StoreF4(d, o, s)) == (if d == 4 then [Mov(0, 4)] else []) + [i];
    AfterBaseMove(d, i);
  }

  lemma AfterBaseMove(r: Reg, i: Instr)
    ensures EncodeAll((if r == 4 then [Mov(0, 4)] else []) + [i]) == BaseMove(r) + Encode(i)
  {
    if r == 4 {
      assert [Mov(0, 4)] + [i] == [Mov(0, 4), i];
      TwoCodes(Mov(0, 4), i);
    } else {
      assert [] + [i] == [i];
      OneCode(i);
    }
  }
}

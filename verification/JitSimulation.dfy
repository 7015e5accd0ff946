/** The code of every sound operation computes what the operation means. */
module JitSimulation {
  import opened Bits
  import opened X64Encoding
  import opened X64Machine
  import opened JitIr
  import opened JitTables

  // ----- Stepping -----

  lemma RunStep(i: Instr, rest: seq<Instr>, m: Machine, m': Machine)
    requires Exec(i, m) == Next(m')
    ensures Run([i] + rest, m) == Run(rest, m')
  {
    RunCons(i, rest, m);
  }

  lemma RunOne(i: Instr, m: Machine)
    ensures Run([i], m) == Exec(i, m)
  {
    assert [i] + [] == [i];
    RunCons(i, [], m);
  }

  lemma RunCopy(d: Reg, s: Reg, rest: seq<Instr>, m: Machine)
    ensures Run(CopyTo(d, s) + rest, m) == Run(rest, Put(m, d, m.regs[s]))
  {
    if s == d {
      assert CopyTo(d, s) + rest == rest;
      assert m.regs[d := m.regs[s]] == m.regs;
    } else {
      ExecMov(d, s, m);
      RunStep(Mov(d, s), rest, m, Put(m, d, m.regs[s]));
    }
  }

  lemma ExecMov(d: Reg, s: Reg, m: Machine)
    ensures Exec(Mov(d, s), m) == Next(Put(m, d, m.regs[s]))
  {
  }

  lemma RunCopyOnly(d: Reg, s: Reg, m: Machine)
    ensures Run(CopyTo(d, s), m) == Next(Put(m, d, m.regs[s]))
  {
    RunCopy(d, s, [], m);
    assert CopyTo(d, s) + [] == CopyTo(d, s);
  }

  // ----- Matching states -----

  /** m' is m with one register changed, flags aside. */
  predicate OnlyChanged(m: Machine, m': Machine, d: Reg, v: Word) {
    m'.regs == m.regs[d := v] && m'.mem == m.mem
  }

  lemma MatchWrite(m: Machine, m': Machine, st: IrState, d: Reg, v: Word)
    requires Match(m, st) && OnlyChanged(m, m', d, v)
    ensures Match(m', Write(st, d, v))
  {
  }

  lemma ReadMatches(m: Machine, st: IrState, r: IrReg)
    requires Match(m, st) && Readable(st, r)
    ensures Val(m.regs, r) == Val(st.regs, r)
  {
  }

  // ----- ADD, SUB, MUL, AND, OR, XOR -----

  lemma {:induction false} BitwiseSelf(op: BitOp, a: nat)
    requires !op.Xor?
    ensures Bitwise(op, a, a) == a
  {
    if a == 0 {
    } else {
      BitwiseSelf(op, a / 2);
    }
  }

  lemma AluOnZero(k: BinOp, x: Word)
    ensures k != BinOp.And && k != Mul ==> Compute(k, x, 0) == x
    ensures k != BinOp.And && k != Mul && k != Sub ==> Compute(k, 0, x) == x
    ensures Compute(k, 0, 0) == 0
    ensures k == BinOp.And || k == BinOp.Or ==> Compute(k, x, x) == x
  {
    match k
    case Add =>
    case Sub =>
    case Mul =>
    case And =>
      BitwiseZero(BitOp.And, 0);
      BitwiseSelf(BitOp.And, x);
    case Or =>
      BitwiseZero(BitOp.Or, x);
      BitwiseSelf(BitOp.Or, x);
    case Xor => BitwiseZero(BitOp.Xor, x);
  }

  lemma MulByZero(x: Word)
    ensures Compute(Mul, x, 0) == 0 && Compute(Mul, 0, x) == 0
  {
    assert x * 0 == 0 && 0 * x == 0;
  }

  lemma RunAluInstr(k: BinOp, d: Reg, t: Reg, m: Machine)
    ensures Exec(AluInstr(k, d, t), m) == Next(PutNoFlags(m, d, Compute(k, m.regs[d], m.regs[t])))
  {
    assert HwReg(d) == d && HwReg(t) == t;
    if k != Mul {
      var i := AluInstr(k, d, t);
      assert i == RR(i.op, d, t, true) && BinOpOf(i.op) == Some(k) && i.op != 0x89 && i.op != 0x39;
      assert Exec(i, m) == ExecRR(i.op, d, t, m);
    }
  }

  lemma RunMovThenOp(k: BinOp, d: Reg, s: Reg, t: Reg, m: Machine)
    ensures var m1 := Put(m, d, m.regs[s]);
            Run(CopyTo(d, s) + [AluInstr(k, d, t)], m) == Next(PutNoFlags(m1, d, Compute(k, m.regs[s], m1.regs[t])))
  {
    var m1 := Put(m, d, m.regs[s]);
    RunCopy(d, s, [AluInstr(k, d, t)], m);
    RunOne(AluInstr(k, d, t), m1);
    RunAluInstr(k, d, t, m1);
  }

  lemma AluRuns(k: BinOp, d: Reg, s: IrReg, t: IrReg, m: Machine)
    requires Sound(Op.Alu(k, d, s, t))
    ensures var o := Run(LowerAlu(k, d, s, t), m);
            o.Next? && OnlyChanged(m, o.m, d, Compute(k, Val(m.regs, s), Val(m.regs, t)))
  {
    if s != R0 && t != R0 && !(s == t && (k == BinOp.And || k == BinOp.Or)) {
      RunMovThenOp(k, d, s, t, m);
    } else if (s == R0 && t == R0) || k == Mul {
      RunOne(MovImm(d, 0), m);
      if k == Mul {
        MulByZero(Val(m.regs, s));
        MulByZero(Val(m.regs, t));
      } else {
        AluOnZero(k, 0);
      }
    } else if s == R0 {
      RunCopyOnly(d, t, m);
      AluOnZero(k, m.regs[t]);
    } else {
      RunCopyOnly(d, s, m);
      AluOnZero(k, m.regs[s]);
    }
  }

  // ----- LESS and the branches -----

  /** The comparison instruction sets the flags of comparing the operand values in the order written,
      unless the first operand is R0. */
  function CompareFlags(s: IrReg, t: IrReg, regs: Regs): Flags {
    if s == R0 then Compare(Val(regs, t), 0) else Compare(Val(regs, s), Val(regs, t))
  }

  lemma RunCompare(s: IrReg, t: IrReg, m: Machine)
    requires s != t
    ensures Exec(CompareInstr(s, t), m) == Next(m.(flags := Some(CompareFlags(s, t, m.regs))))
  {
  }

  lemma LowByteOnly(m: Machine, b: bool)
    ensures PutLowByte(m, RAX, b).regs[RAX] % 256 == Flag(b)
  {
    var v := m.regs[RAX];
    assert v - v % 256 == 256 * (v / 256);
    assert (256 * (v / 256) + Flag(b)) % 256 == Flag(b);
  }

  /** Comparison, SETcc and MOVZX leave the condition in RAX and touch nothing else but flags. */
  lemma RunSetCondition(set_: Instr, s: IrReg, t: IrReg, rest: seq<Instr>, m: Machine)
    requires s != t && (set_ == SetL() || set_ == SetE())
    ensures var f := CompareFlags(s, t, m.regs);
            var b := if set_ == SetL() then f.sign != f.overflow else f.zero;
            Run([CompareInstr(s, t), set_, MovZx()] + rest, m) == Run(rest, Put(m, RAX, Flag(b)).(flags := Some(f)))
  {
    var f := CompareFlags(s, t, m.regs);
    var b := if set_ == SetL() then f.sign != f.overflow else f.zero;
    var m1 := m.(flags := Some(f));
    var m2 := PutLowByte(m1, RAX, b);
    var m3 := Put(m2, RAX, m2.regs[RAX] % 256);
    RunCompare(s, t, m);
    LowByteOnly(m1, b);
    assert m3 == Put(m, RAX, Flag(b)).(flags := Some(f)) by {
      assert m3.regs == m.regs[RAX := Flag(b)];
    }
    assert [CompareInstr(s, t), set_, MovZx()] + rest == [CompareInstr(s, t)] + ([set_] + ([MovZx()] + rest));
    RunStep(CompareInstr(s, t), [set_] + ([MovZx()] + rest), m, m1);
    RunStep(set_, [MovZx()] + rest, m1, m2);
    RunStep(MovZx(), rest, m2, m3);
  }

  lemma LessRuns(d: Reg, s: IrReg, t: IrReg, m: Machine)
    requires s != t
    ensures var f := CompareFlags(s, t, m.regs);
            var v := Flag(f.sign != f.overflow);
            Run(LowerLess(d, s, t), m) == Next(Put(Put(m, RAX, v), d, v).(flags := Some(f)))
  {
    var f := CompareFlags(s, t, m.regs);
    var m1 := Put(m, RAX, Flag(f.sign != f.overflow)).(flags := Some(f));
    RunSetCondition(SetL(), s, t, [Mov(d, RAX)], m);
    assert LowerLess(d, s, t) == [CompareInstr(s, t), SetL(), MovZx()] + [Mov(d, RAX)];
    ExecMov(d, RAX, m1);
    RunOne(Mov(d, RAX), m1);
  }

  lemma LessCorrect(d: Reg, s: IrReg, t: IrReg, m: Machine, st: IrState)
    requires s != R0 || s == t
    requires Match(m, st) && Readable(st, s) && Readable(st, t)
    ensures var o := Run(LowerLess(d, s, t), m);
            o.Next? && Match(o.m, IrStep(Op.Less(d, s, t), st).value)
  {
    ReadMatches(m, st, s);
    ReadMatches(m, st, t);
    var x, y := Val(m.regs, s), Val(m.regs, t);
    var st1 := st.(raxLive := false);
    if s == t {
      RunOne(MovImm(d, 0), m);
      MatchWrite(m, Put(m, d, 0), st1, d, 0);
    } else {
      LessRuns(d, s, t, m);
      CompareIsSigned(x, y);
      var v := Flag(Signed(x) < Signed(y));
      var m1 := Put(m, RAX, v);
      assert Match(m1, st1);
      MatchWrite(m1, Run(LowerLess(d, s, t), m).m, st1, d, v);
    }
  }

  // ----- Loads -----

  lemma SignExtendWrapped(o: int)
    requires IsInt32(o)
    ensures SignExtend32(Wrap32(o)) == Wrap(o)
  {
  }

  lemma OffsetOfWrapped(a: Word, o: int)
    requires IsInt32(o)
    ensures Offset(a, Wrap(o)) == Offset(a, o)
  {
    assert Wrap(o) == if o >= 0 then o else o + TWO_64;
  }

  lemma RunLoadInstr(wide: bool, d: Reg, s: Reg, o: int, m: Machine)
    requires IsInt32(o) && PlainBase(s)
    ensures Exec(LoadInstr(wide, d, s, o), m) == Next(Put(m, d, LoadedValue(wide, m.mem, Offset(m.regs[s], o))))
  {
    var i := LoadInstr(wide, d, s, o);
    assert i == RI32(0x8B, 2, s, d, Wrap32(o), wide);
    assert Exec(i, m) == ExecMove(0x8B, Offset(m.regs[s], SignExtend32(Wrap32(o))), d, wide, m);
    AddressOf(m.regs[s], o);
  }

  lemma AddressOf(base: Word, o: int)
    requires IsInt32(o)
    ensures Offset(base, SignExtend32(Wrap32(o))) == Offset(base, o)
  {
    SignExtendWrapped(o);
    OffsetOfWrapped(base, o);
  }

  lemma {:induction false} LoadMatches(m: Machine, st: IrState, a: Word, n: nat)
    requires Match(m, st) && n <= 8 && Untouched(st.frames, a, n)
    ensures LoadBytes(m.mem, a, n) == LoadBytes(st.mem, a, n)
    decreases n
  {
    if n == 0 {
    } else {
      assert Offset(a, 0) == a;
      assert Untouched(st.frames, Offset(a, 1), n - 1) by {
        forall i | 0 <= i < n - 1 ensures !Scratched(st.frames, Offset(Offset(a, 1), i)) {
          OffsetSum(a, i);
        }
      }
      LoadMatches(m, st, Offset(a, 1), n - 1);
    }
  }

  lemma OffsetSum(a: Word, i: int)
    requires 0 <= i < 8
    ensures Offset(Offset(a, 1), i) == Offset(a, i + 1)
  {
    WrapSuccessor(a);
  }

  /** The load's register effect; the stack pointer as a base goes through RAX. */
  lemma LoadRuns(wide: bool, d: Reg, s: Reg, o: int, m: Machine)
    requires IsInt32(o) && s != R12
    ensures var v := LoadedValue(wide, m.mem, Offset(m.regs[s], o));
            var m1 := if s == RSP then Put(m, RAX, m.regs[RSP]) else m;
            Run(LowerLoad(wide, d, s, o), m) == Next(Put(m1, d, v))
  {
    if s == RSP {
      var m1 := Put(m, RAX, m.regs[RSP]);
      var load := LoadInstr(wide, d, RAX, o);
      assert LowerLoad(wide, d, s, o) == [Mov(RAX, s)] + [load];
      ExecMov(RAX, RSP, m);
      RunStep(Mov(RAX, s), [load], m, m1);
      RunOne(load, m1);
      RunLoadInstr(wide, d, RAX, o, m1);
    } else {
      assert PlainBase(s);
      RunOne(LoadInstr(wide, d, s, o), m);
      RunLoadInstr(wide, d, s, o, m);
    }
  }

  lemma LoadCorrect(wide: bool, d: Reg, s: IrReg, o: int, m: Machine, st: IrState)
    requires IsInt32(o) && s != R0 && s != R12
    requires Match(m, st) && IrStep(Op.Load(wide, d, s, o), st).Some?
    ensures var r := Run(LowerLoad(wide, d, s, o), m);
            r.Next? && Match(r.m, IrStep(Op.Load(wide, d, s, o), st).value)
  {
    ReadMatches(m, st, s);
    var a := Offset(m.regs[s], o);
    LoadMatches(m, st, a, Width(wide));
    LoadRuns(wide, d, s, o, m);
    var v := LoadedValue(wide, st.mem, a);
    var st1 := if s == RSP then st.(raxLive := false) else st;
    var m1 := if s == RSP then Put(m, RAX, m.regs[RSP]) else m;
    assert Match(m1, st1);
    MatchWrite(m1, Put(m1, d, v), st1, d, v);
  }

  // ----- Stores -----

  lemma RunStoreInstr(wide: bool, d: Reg, o: int, src: Reg, m: Machine)
    requires IsInt32(o) && PlainBase(d)
    ensures Exec(StoreInstr(wide, d, o, src), m) == Next(Stored(wide, Offset(m.regs[d], o), m.regs[src], m))
  {
    var i := StoreInstr(wide, d, o, src);
    assert i == RI32(0x89, 2, d, src, Wrap32(o), wide);
    assert Exec(i, m) == ExecMove(0x89, Offset(m.regs[d], SignExtend32(Wrap32(o))), src, wide, m);
    AddressOf(m.regs[d], o);
  }

  /** m after the low bytes of v have gone to address a. */
  function Stored(wide: bool, a: Word, v: Word, m: Machine): Machine {
    m.(mem := StoreBytes(m.mem, a, ToBytes(v, Width(wide))))
  }

  /** What the code of a store does, whatever its operands: the offset written is the number of the
      register s, and the value that of the register numbered o. */
  lemma StoreRuns(wide: bool, d: Reg, o: int, s: Reg, m: Machine)
    requires IsInt32(o) && PlainBase(d)
    ensures var m1 := if s == RSP then Put(m, RAX, m.regs[RSP]) else m;
            var off := if s == RSP then RAX else s;
            Run(LowerStore(wide, d, o, s), m) == Next(Stored(wide, Offset(m1.regs[d], off), m1.regs[HwReg(o)], m1))
  {
    var m1 := if s == RSP then Put(m, RAX, m.regs[RSP]) else m;
    var off: Reg := if s == RSP then RAX else s;
    var store := StoreInstr(wide, d, off, o);
    assert store == StoreInstr(wide, d, off, HwReg(o));
    RunStoreInstr(wide, d, off, HwReg(o), m1);
    RunOne(store, m1);
    if s == RSP {
      assert LowerStore(wide, d, o, s) == [Mov(RAX, s)] + [store];
      ExecMov(RAX, RSP, m);
      RunStep(Mov(RAX, s), [store], m, m1);
    } else {
      assert LowerStore(wide, d, o, s) == [store];
    }
  }

  /** Stores of the same bytes to memories that agree at b leave them agreeing at b. */
  lemma {:induction false} StoreAgrees(mem: Mem, mem': Mem, a: Word, bs: seq<Byte>, b: Word)
    requires At(mem, b) == At(mem', b)
    ensures At(StoreBytes(mem, a, bs), b) == At(StoreBytes(mem', a, bs), b)
    decreases |bs|
  {
    if bs == [] {
    } else {
      StoreAgrees(mem[a := bs[0]], mem'[a := bs[0]], Offset(a, 1), bs[1..], b);
    }
  }

  /** Under the conditions of Sound, that is the store meant. */
  lemma SoundStoreRuns(wide: bool, d: Reg, o: int, s: Reg, m: Machine)
    requires PlainBase(d) && if s == RSP then o == 0 && d != RAX else o == s
    ensures var m1 := if s == RSP then Put(m, RAX, m.regs[RSP]) else m;
            Run(LowerStore(wide, d, o, s), m) == Next(Stored(wide, Offset(m.regs[d], o), m.regs[s], m1))
  {
    SoundStoreOperands(d, o, s, m);
    StoreRuns(wide, d, o, s, m);
  }

  lemma SoundStoreOperands(d: Reg, o: int, s: Reg, m: Machine)
    requires if s == RSP then o == 0 && d != RAX else o == s
    ensures var m1 := if s == RSP then Put(m, RAX, m.regs[RSP]) else m;
            && (o == if s == RSP then RAX else s)
            && m1.regs[d] == m.regs[d] && m1.regs[HwReg(o)] == m.regs[s]
  {
    assert HwReg(o) == o;
  }

  /** A machine and a state that match still do after the same store, the state having lost RAX or not. */
  lemma MatchStored(m: Machine, st: IrState, wide: bool, a: Word, v: Word)
    requires Match(m, st)
    ensures Match(Stored(wide, a, v, m), st.(mem := StoreBytes(st.mem, a, ToBytes(v, Width(wide)))))
  {
    var bs := ToBytes(v, Width(wide));
    forall b: Word | !Scratched(st.frames, b)
      ensures At(StoreBytes(m.mem, a, bs), b) == At(StoreBytes(st.mem, a, bs), b)
    {
      StoreAgrees(m.mem, st.mem, a, bs, b);
    }
  }

  lemma StoreCorrect(wide: bool, d: Reg, o: int, s: Reg, m: Machine, st: IrState)
    requires IsInt32(o) && Sound(Op.Store(wide, d, o, s))
    requires Match(m, st) && StoreStep(wide, d, o, s, st).Some?
    ensures var r := Run(LowerStore(wide, d, o, s), m);
            r.Next? && Match(r.m, StoreStep(wide, d, o, s, st).value)
  {
    ReadMatches(m, st, d);
    ReadMatches(m, st, s);
    SoundStoreRuns(wide, d, o, s, m);
    var m1 := if s == RSP then Put(m, RAX, m.regs[RSP]) else m;
    MatchStored(m1, ThroughRax(s, st), wide, Offset(m.regs[d], o), m.regs[s]);
  }

  // ----- Immediates -----

  lemma ExecMovImm(d: Reg, i: int, m: Machine)
    requires IsInt32(i)
    ensures Exec(MovImm(d, i), m) == Next(Put(m, d, Wrap(i)))
  {
    SignExtendWrapped(i);
  }

  /** ADDI to R0 is a move to the register that -1 encodes, which is RDI. */
  lemma AddImmToR0Runs(s: IrReg, i: int, m: Machine)
    ensures var o := Run(LowerAddImm(R0, s, i), m);
            var m1 := if s == R0 then m else Put(m, RDI, m.regs[s]);
            o == Next(if i == 0 then m1 else Put(m1, RDI, m1.regs[HwReg(i)]))
  {
    var m1 := if s == R0 then m else Put(m, RDI, m.regs[s]);
    var tail := if i != 0 then [Mov(R0, i)] else [];
    assert HwReg(R0) == RDI;
    assert LowerAddImm(R0, s, i) == CopyTo(R0, s) + tail;
    assert Run(CopyTo(R0, s) + tail, m) == Run(tail, m1) by {
      if s == R0 {
        assert CopyTo(R0, s) + tail == tail;
      } else {
        RunStep(Mov(R0, s), tail, m, m1);
      }
    }
    if i != 0 {
      RunOne(Mov(R0, i), m1);
    }
  }

  lemma AddImmCorrect(d: IrReg, s: IrReg, i: int, m: Machine, st: IrState)
    requires IsInt32(i) && Sound(Op.AddImm(d, s, i))
    requires Match(m, st) && IrStep(Op.AddImm(d, s, i), st).Some?
    ensures var r := Run(LowerAddImm(d, s, i), m);
            r.Next? && Match(r.m, IrStep(Op.AddImm(d, s, i), st).value)
  {
    if d == R0 {
      AddImmToR0Runs(s, i, m);
      assert m.regs[RDI := m.regs[RDI]] == m.regs;
    } else if s == R0 {
      RunOne(MovImm(d, i), m);
      ExecMovImm(d, i, m);
      MatchWrite(m, Put(m, d, Wrap(i)), st, d, Wrap(i));
    } else {
      assert st.regs[d := st.regs[d]] == st.regs;
    }
  }

  /** The instruction of an immediate shift. Its byte and the count agree modulo 64. */
  function ShiftImmInstr(left: bool, d: Reg, i: int): Instr { RI8(0xC1, d, if left then 4 else 7, i % 256) }

  lemma ExecShiftImm(left: bool, d: Reg, i: int, m: Machine)
    ensures Exec(ShiftImmInstr(left, d, i), m) == Next(PutNoFlags(m, d, ShiftBy(left, m.regs[d], i % 64)))
  {
    CountOfByte(i);
  }

  lemma CountOfByte(i: int)
    ensures i % 256 % 64 == i % 64
  {
    var q, r := i / 256, i % 256;
    DivModUnique(i, 64, 4 * q + r / 64, r % 64);
  }

  lemma LowerShiftByLast(left: bool, d: Reg, s: Reg, i: int)
    requires i == R0
    ensures LowerShiftImm(left, d, s, i) == (if s != d then [MovImm(d, s)] else []) + [ShiftImmInstr(left, d, i)]
  {
  }

  /** An immediate shift emits its instruction only for the immediate -1. */
  lemma ShiftByLast(left: bool, d: Reg, s: Reg, i: int, m: Machine)
    requires i == R0
    ensures var m1 := if s == d then m else Put(m, d, s);
            Run(LowerShiftImm(left, d, s, i), m) == Next(PutNoFlags(m1, d, ShiftBy(left, m1.regs[d], i % 64)))
  {
    var m1, shift := if s == d then m else Put(m, d, s), ShiftImmInstr(left, d, i);
    LowerShiftByLast(left, d, s, i);
    ExecShiftImm(left, d, i, m1);
    RunOne(shift, m1);
    if s == d {
      assert [] + [shift] == [shift];
    } else {
      ExecMovImm(d, s, m);
      RunStep(MovImm(d, s), [shift], m, m1);
    }
  }

  /** The register effect of a sound immediate shift. */
  lemma ShiftImmRuns(left: bool, d: Reg, s: IrReg, i: int, m: Machine)
    requires s == R0 || (s == d && (i == R0 || i % 64 == 0))
    ensures var o := Run(LowerShiftImm(left, d, s, i), m);
            o.Next? && OnlyChanged(m, o.m, d, ShiftBy(left, Val(m.regs, s), i % 64))
  {
    if s == R0 {
      ShiftOfZero(left, i % 64);
      ExecMovImm(d, 0, m);
      RunOne(MovImm(d, 0), m);
    } else if i == R0 {
      ShiftByLast(left, d, d, i, m);
    } else {
      ShiftByZero(left, m.regs[d]);
      assert m.regs[d := m.regs[d]] == m.regs;
    }
  }

  lemma ShiftImmCorrect(left: bool, d: Reg, s: IrReg, i: int, m: Machine, st: IrState)
    requires IsInt32(i) && Sound(Op.ShiftImm(left, d, s, i))
    requires Match(m, st) && IrStep(Op.ShiftImm(left, d, s, i), st).Some?
    ensures var r := Run(LowerShiftImm(left, d, s, i), m);
            r.Next? && Match(r.m, IrStep(Op.ShiftImm(left, d, s, i), st).value)
  {
    ReadMatches(m, st, s);
    ShiftImmRuns(left, d, s, i, m);
    MatchWrite(m, Run(LowerShiftImm(left, d, s, i), m).m, st, d, ShiftBy(left, Val(m.regs, s), i % 64));
  }

  // ----- Shifts -----

  /** The machine states between the four instructions of a register shift. */
  function ShiftPushed(m: Machine): Machine { PushValue(m, m.regs[RCX]) }

  function ShiftCounted(t: Reg, m: Machine): Machine { Put(ShiftPushed(m), RCX, ShiftPushed(m).regs[t]) }

  function ShiftShifted(left: bool, d: Reg, t: Reg, m: Machine): Machine {
    var m2 := ShiftCounted(t, m);
    PutNoFlags(m2, d, ShiftBy(left, m2.regs[d], m2.regs[RCX] % 64))
  }

  lemma ShiftRuns(left: bool, d: Reg, t: Reg, m: Machine)
    ensures Run([Push(RCX), Mov(RCX, t), ShiftInstr(left, d), Pop(RCX)], m)
         == Exec(Pop(RCX), ShiftShifted(left, d, t, m))
  {
    var m1, m2, m3 := ShiftPushed(m), ShiftCounted(t, m), ShiftShifted(left, d, t, m);
    assert [Push(RCX), Mov(RCX, t), ShiftInstr(left, d), Pop(RCX)]
        == [Push(RCX)] + ([Mov(RCX, t)] + ([ShiftInstr(left, d)] + [Pop(RCX)]));
    RunStep(Push(RCX), [Mov(RCX, t)] + ([ShiftInstr(left, d)] + [Pop(RCX)]), m, m1);
    ExecMov(RCX, t, m1);
    RunStep(Mov(RCX, t), [ShiftInstr(left, d)] + [Pop(RCX)], m1, m2);
    ExecShift(left, d, m2);
    RunStep(ShiftInstr(left, d), [Pop(RCX)], m2, m3);
    RunOne(Pop(RCX), m3);
  }

  lemma ExecShift(left: bool, d: Reg, m: Machine)
    ensures Exec(ShiftInstr(left, d), m) == Next(PutNoFlags(m, d, ShiftBy(left, m.regs[d], m.regs[RCX] % 64)))
  {
    LowCount(m.regs[RCX]);
  }

  lemma LowCount(x: Word)
    ensures x % 256 % 64 == x % 64
  {
  }

  /** POP into r undoes an earlier PUSH of r if RSP and memory are as that PUSH left them. */
  lemma PopRestores(m: Machine, m': Machine, r: Reg)
    requires m'.mem == PushValue(m, m.regs[r]).mem && m'.regs[RSP] == Offset(m.regs[RSP], -8)
    ensures Exec(Pop(r), m') == Next(Put(Put(m', RSP, m.regs[RSP]), r, m.regs[r]))
  {
    PushPop(m, m.regs[r]);
  }

  /** With a destination the push and pop do not disturb, the shift changes only that register. */
  lemma ShiftEffect(left: bool, d: Reg, t: Reg, m: Machine)
    requires d != RCX && d != RSP && t != RSP
    ensures var o := Exec(Pop(RCX), ShiftShifted(left, d, t, m));
            && o.Next? && o.m.regs == m.regs[d := ShiftBy(left, m.regs[d], m.regs[t] % 64)]
            && o.m.mem == ShiftPushed(m).mem
  {
    var m3 := ShiftShifted(left, d, t, m);
    var v := ShiftBy(left, m.regs[d], m.regs[t] % 64);
    assert ShiftCounted(t, m).regs == m.regs[RSP := Offset(m.regs[RSP], -8)][RCX := m.regs[t]];
    assert m3.regs == m.regs[RSP := Offset(m.regs[RSP], -8)][RCX := m.regs[t]][d := v];
    PopRestores(m, m3, RCX);
    assert m3.regs[RSP := m.regs[RSP]][RCX := m.regs[RCX]] == m.regs[d := v];
  }

  lemma MatchFrame(m: Machine, m': Machine, st: IrState, v: Word)
    requires Match(m, st) && m'.regs == m.regs && m'.mem == PushValue(m, v).mem
    ensures Match(m', UseFrame(st))
  {
    var f := Offset(st.regs[RSP], -8);
    forall a: Word | !Scratched(UseFrame(st).frames, a) ensures At(m'.mem, a) == At(st.mem, a) {
      assert f in UseFrame(st).frames && !InWindow(a, f, 8);
      assert !Scratched(st.frames, a);
      PushFrame(m, v, a);
    }
  }

  lemma ShiftCorrect(left: bool, d: Reg, s: IrReg, t: IrReg, m: Machine, st: IrState)
    requires Sound(Op.Shift(left, d, s, t))
    requires Match(m, st) && Readable(st, s) && Readable(st, t)
    ensures var o := Run(LowerShift(left, d, s, t), m);
            o.Next? && Match(o.m, IrStep(Op.Shift(left, d, s, t), st).value)
  {
    ReadMatches(m, st, s);
    ReadMatches(m, st, t);
    var x, y := Val(m.regs, s), Val(m.regs, t);
    var v := ShiftBy(left, x, y % 64);
    if s == R0 || t == R0 {
      MatchMoreFrames(m, st);
      ShiftWithR0Runs(left, d, s, t, m);
      MatchWrite(m, Run(LowerShift(left, d, s, t), m).m, UseFrame(st), d, v);
    } else {
      ShiftOperands(left, d, s, t, m);
      var m' := Run(LowerShift(left, d, s, t), m).m;
      var framed := m.(mem := m'.mem);
      MatchFrame(m, framed, st, m.regs[RCX]);
      MatchWrite(framed, m', UseFrame(st), d, v);
    }
  }

  lemma ShiftWithR0Runs(left: bool, d: Reg, s: IrReg, t: IrReg, m: Machine)
    requires s == R0 || (t == R0 && s == d)
    ensures var o := Run(LowerShift(left, d, s, t), m);
            o.Next? && OnlyChanged(m, o.m, d, ShiftBy(left, Val(m.regs, s), Val(m.regs, t) % 64))
  {
    if s == R0 {
      ShiftOfZero(left, Val(m.regs, t) % 64);
      ExecMovImm(d, 0, m);
      RunOne(MovImm(d, 0), m);
    } else {
      ShiftByZero(left, m.regs[d]);
      assert m.regs[d := m.regs[d]] == m.regs;
    }
  }

  lemma ShiftOperands(left: bool, d: Reg, s: Reg, t: Reg, m: Machine)
    requires Sound(Op.Shift(left, d, s, t))
    ensures var o := Run(LowerShift(left, d, s, t), m);
            && o.Next? && o.m.regs == m.regs[d := ShiftBy(left, m.regs[s], m.regs[t] % 64)]
            && o.m.mem == PushValue(m, m.regs[RCX]).mem
  {
    var m0 := Put(m, d, m.regs[s]);
    RunCopy(d, s, [Push(RCX), Mov(RCX, t), ShiftInstr(left, d), Pop(RCX)], m);
    ShiftRuns(left, d, t, m0);
    ShiftEffect(left, d, t, m0);
    assert m0.regs[t] == m.regs[t];
    assert PushValue(m0, m0.regs[RCX]).mem == PushValue(m, m.regs[RCX]).mem;
  }

  lemma MatchMoreFrames(m: Machine, st: IrState)
    requires Match(m, st)
    ensures Match(m, UseFrame(st))
  {
    forall a: Word | !Scratched(UseFrame(st).frames, a) ensures At(m.mem, a) == At(st.mem, a) {
      assert forall f :: f in st.frames ==> f in UseFrame(st).frames;
      assert !Scratched(st.frames, a);
    }
  }

  lemma ShiftOfZero(left: bool, count: nat)
    ensures ShiftBy(left, 0, count) == 0
  {
    assert 0 * Pow2(count) == 0;
    DivModUnique(0, Pow2(count), 0, 0);
  }

  lemma ShiftByZero(left: bool, x: Word)
    ensures ShiftBy(left, x, 0) == x
  {
  }

  // ----- Division -----

  /** The machine before IDIV. */
  function DivReady(s: Reg, m: Machine): Machine {
    var m1 := PushValue(m, m.regs[RDX]);
    var m2 := Put(m1, RAX, m1.regs[s]);
    Put(m2, RDX, if Wrap32(m2.regs[RAX]) < TWO_31 then 0 else TWO_32 - 1)
  }

  function DivTail(d: Reg, t: Reg): seq<Instr> {
    [Idiv(t)] + ([Mov(d, RAX)] + [Pop(RDX)])
  }

  lemma DivPrepares(d: Reg, s: Reg, t: Reg, m: Machine)
    ensures Run(LowerDiv(d, s, t), m) == Run(DivTail(d, t), DivReady(s, m))
  {
    var m1 := PushValue(m, m.regs[RDX]);
    var m2 := Put(m1, RAX, m1.regs[s]);
    var tail := DivTail(d, t);
    assert LowerDiv(d, s, t) == [Push(RDX)] + ([Mov(RAX, s)] + ([Cdq] + tail));
    ExecPushCdq(m, m2);
    RunStep(Push(RDX), [Mov(RAX, s)] + ([Cdq] + tail), m, m1);
    ExecMov(RAX, s, m1);
    RunStep(Mov(RAX, s), [Cdq] + tail, m1, m2);
    RunStep(Cdq, tail, m2, DivReady(s, m));
  }

  lemma ExecPushCdq(m: Machine, m2: Machine)
    ensures Exec(Push(RDX), m) == Next(PushValue(m, m.regs[RDX]))
    ensures Exec(Cdq, m2) == Next(Put(m2, RDX, if Wrap32(m2.regs[RAX]) < TWO_31 then 0 else TWO_32 - 1))
  {
  }

  lemma ExecIdivInstr(t: Reg, m: Machine)
    ensures Exec(Idiv(t), m) == ExecIdiv(m.regs[t], m)
  {
  }

  lemma DivFinishes(d: Reg, t: Reg, m: Machine)
    ensures var o := ExecIdiv(m.regs[t], m);
            Run(DivTail(d, t), m) == if o.Next? then Exec(Pop(RDX), Put(o.m, d, o.m.regs[RAX])) else Stuck
  {
    var o := ExecIdiv(m.regs[t], m);
    ExecIdivInstr(t, m);
    RunCons(Idiv(t), [Mov(d, RAX)] + [Pop(RDX)], m);
    if o.Next? {
      var m' := Put(o.m, d, o.m.regs[RAX]);
      ExecMov(d, RAX, o.m);
      RunStep(Mov(d, RAX), [Pop(RDX)], o.m, m');
      RunOne(Pop(RDX), m');
    }
  }

  /** The dividend IDIV sees when s holds x. */
  function Dividend(x: Word): int {
    if Wrap32(x) < TWO_31 then x else (TWO_32 - 1) * TWO_64 + x
  }

  lemma DivEffect(d: Reg, s: Reg, t: Reg, m: Machine)
    requires Sound(Op.Div(d, s, t)) && m.regs[t] != 0
    ensures var q := TruncDiv(Dividend(m.regs[s]), Signed(m.regs[t]));
            var o := Run(LowerDiv(d, s, t), m);
            if -TWO_63 <= q < TWO_63 then
              && o.Next? && o.m.mem == PushValue(m, m.regs[RDX]).mem
              && o.m.regs == m.regs[RAX := Wrap(q)][d := Wrap(q)]
            else o == Stuck
  {
    var m3 := DivReady(s, m);
    DivPrepares(d, s, t, m);
    DivFinishes(d, t, m3);
    DivReadyRegs(s, m);
    var q := TruncDiv(Dividend(m.regs[s]), Signed(m.regs[t]));
    if -TWO_63 <= q < TWO_63 {
      var m4 := ExecIdiv(m3.regs[t], m3).m;
      var m5 := Put(m4, d, Wrap(q));
      assert m4.regs[RAX] == Wrap(q) && m4.mem == m3.mem;
      PopRestores(m, m5, RDX);
      assert m5.regs[RSP := m.regs[RSP]][RDX := m.regs[RDX]] == m.regs[RAX := Wrap(q)][d := Wrap(q)];
    }
  }

  lemma DivReadyRegs(s: Reg, m: Machine)
    requires s != RSP
    ensures var m3 := DivReady(s, m);
            && (forall r: Reg :: r != RAX && r != RDX && r != RSP ==> m3.regs[r] == m.regs[r])
            && m3.regs[RAX] == m.regs[s] && m3.regs[RSP] == Offset(m.regs[RSP], -8)
            && m3.mem == PushValue(m, m.regs[RDX]).mem
            && Signed(m3.regs[RDX]) * TWO_64 + m3.regs[RAX] == Dividend(m.regs[s])
  {
  }

  lemma DivCorrect(d: Reg, s: IrReg, t: IrReg, m: Machine, st: IrState)
    requires var op := Op.Div(d, s, t); Sound(op) && IrStep(op, st).Some? && Workable(op, st)
    requires Match(m, st)
    ensures var o := Run(LowerDiv(d, s, t), m);
            o.Next? && Match(o.m, IrStep(Op.Div(d, s, t), st).value)
  {
    ReadMatches(m, st, s);
    ReadMatches(m, st, t);
    var x, y := Val(m.regs, s), Val(m.regs, t);
    var q := TruncDiv(Signed(x), Signed(y));
    var st1 := st.(raxLive := false);
    assert Match(m, st1);
    if s == R0 {
      DivOfZero(Signed(y));
      RunOne(MovImm(d, 0), m);
      MatchMoreFrames(m, st1);
      MatchWrite(m, Put(m, d, 0), UseFrame(st1), d, Wrap(q));
    } else {
      QuotientFits(Signed(x), Signed(y));
      DivEffect(d, s, t, m);
      var m' := Run(LowerDiv(d, s, t), m).m;
      var framed := m.(mem := m'.mem);
      MatchFrame(m, framed, st1, m.regs[RDX]);
      var divided := Put(framed, RAX, Wrap(q));
      assert Match(divided, UseFrame(st1));
      MatchWrite(divided, m', UseFrame(st1), d, Wrap(q));
    }
  }

  lemma DivOfZero(y: int)
    requires y != 0
    ensures TruncDiv(0, y) == 0
  {
    DivModUnique(0, Abs(y), 0, 0);
  }

  lemma QuotientFits(x: int, y: int)
    requires 0 <= x < TWO_63 && y != 0
    ensures -TWO_63 < TruncDiv(x, y) < TWO_63
  {
    QuotientAtMost(Abs(x), Abs(y));
  }

  // ----- Every operation -----

  lemma SoundIsWellFormed(op: Op)
    requires IsData(op) && Sound(op)
    ensures AllWellFormed(Lower(op))
  {
    if IsMemoryOp(op) {
      MemoryOpWellFormed(op);
    } else {
      IntegerOpWellFormed(op);
    }
  }

  /** The emitted bytes of a sound operation compute what the operation means. */
  lemma SoundIsCorrectAt(op: Op, m: Machine, st: IrState)
    requires IsData(op) && Sound(op) && Match(m, st) && IrStep(op, st).Some? && Workable(op, st)
    ensures CorrectAt(op, m, st)
  {
    SoundIsWellFormed(op);
    RunBytesIsRun(Lower(op), m);
    InstructionsCorrect(op, m, st);
  }

  /** So do its instructions. */
  lemma InstructionsCorrect(op: Op, m: Machine, st: IrState)
    requires IsData(op) && Sound(op) && Match(m, st) && IrStep(op, st).Some? && Workable(op, st)
    ensures var r := Run(Lower(op), m);
            r.Next? && Match(r.m, IrStep(op, st).value)
  {
    if op.Store? {
      StoreCorrect(op.wide, op.d, op.o, op.s, m, st);
    } else if op.AddImm? {
      AddImmCorrect(op.d, op.s, op.i, m, st);
    } else if op.d == R0 {
      NothingEmitted(op, st);
    } else {
      DestinationCorrect(op, m, st);
    }
  }

  lemma NothingEmitted(op: Op, st: IrState)
    requires IsData(op) && op.d == R0 && !op.Store? && !op.AddImm?
    ensures Lower(op) == [] && IrStep(op, st) == Some(st)
  {
  }

  lemma DestinationCorrect(op: Op, m: Machine, st: IrState)
    requires IsData(op) && Sound(op) && Match(m, st) && IrStep(op, st).Some? && Workable(op, st)
    requires op.d != R0 && !op.Store? && !op.AddImm?
    ensures var r := Run(Lower(op), m);
            r.Next? && Match(r.m, IrStep(op, st).value)
  {
    match op
    case Alu(k, d, s, t) =>
      AluRuns(k, d, s, t, m);
      ReadMatches(m, st, s);
      ReadMatches(m, st, t);
      MatchWrite(m, Run(Lower(op), m).m, st, d, Compute(k, Val(st.regs, s), Val(st.regs, t)));
    case Div(d, s, t) => DivCorrect(d, s, t, m, st);
    case Shift(left, d, s, t) => ShiftCorrect(left, d, s, t, m, st);
    case Less(d, s, t) => LessCorrect(d, s, t, m, st);
    case Load(wide, d, s, o) => LoadCorrect(wide, d, s, o, m, st);
    case ShiftImm(left, d, s, i) => ShiftImmCorrect(left, d, s, i, m, st);
  }
}

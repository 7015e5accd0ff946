/** What the emitted bytes leave in registers and memory, in plain numbers: sums modulo 2^64, truncated
    quotients, floors, truth tables and single bytes. */
module JitMeaning {
  import opened Bits
  import opened X64Encoding
  import opened X64Machine
  import opened X64Arithmetic
  import opened JitIr
  import opened JitSimulation
  import opened JitExactness
  import opened JitPrograms

  /** The registers, by number, that the conditions of Sound are about. */
  lemma SoundInNumbers(op: Op)
    requires IsData(op)
    ensures Sound(op) <==>
              match op
              case Alu(k, d, s, t) =>
                || d == -1
                || (s != -1 && t != -1 && (t != d || s == d) && !(k == BinOp.Xor && s == t))
                || (s == -1 && t == -1)
                || (s != -1 && t == -1 && k != BinOp.And)
                || (s == -1 && t != -1 && k != BinOp.And && k != Sub)
              case Div(d, s, t) =>
                || d == -1 || s == -1 || t == -1
                || (d != 2 && d != 4 && s != 4 && t != 2 && t != 4 && (t != 0 || s == 0))
              case Shift(_, d, s, t) =>
                || d == -1 || s == -1
                || (t == -1 && s == d)
                || (t != -1 && d != 1 && d != 4 && t != 4 && (t != d || s == d))
              case Less(d, s, t) => d == -1 || s != -1 || t == -1
              case Load(_, d, s, _) => d == -1 || (s != -1 && s != 12)
              case Store(_, d, o, s) =>
                && d != -1 && d != 4 && d != 12 && s != -1
                && (s != 4 ==> o == s) && (s == 4 ==> o == 0 && d != 0)
              case AddImm(d, s, i) =>
                || (d != -1 && (s == -1 || (s == d && i == 0)))
                || (d == -1 && (s == -1 || s == 7) && (i == 0 || i == 7 || (i < 0 && i % 8 == 7)))
              case ShiftImm(_, d, s, i) => d == -1 || s == -1 || (s == d && (i == -1 || i % 64 == 0))
              case _ => false
  {
  }

  // ----- Arithmetic and logic -----

  lemma AluCode(k: BinOp, d: Reg, s: IrReg, t: IrReg, m: Machine)
    requires Sound(Op.Alu(k, d, s, t))
    ensures var o := RunBytes(Code(Op.Alu(k, d, s, t)), m);
            o.Next? && OnlyChanged(m, o.m, d, Compute(k, Val(m.regs, s), Val(m.regs, t)))
  {
    SoundIsWellFormed(Op.Alu(k, d, s, t));
    RunBytesIsRun(LowerAlu(k, d, s, t), m);
    AluRuns(k, d, s, t, m);
  }

  /** ADD leaves the sum modulo 2^64. */
  lemma AddCode(d: Reg, s: IrReg, t: IrReg, m: Machine)
    requires Sound(Op.Alu(Add, d, s, t))
    ensures var x, y := Val(m.regs, s) as int, Val(m.regs, t) as int;
            Leaves(Op.Alu(Add, d, s, t), m, d, (x + y) % 0x1_0000_0000_0000_0000)
  {
    AluCode(Add, d, s, t, m);
  }

  /** SUB leaves the difference. */
  lemma SubCode(d: Reg, s: IrReg, t: IrReg, m: Machine)
    requires Sound(Op.Alu(Sub, d, s, t))
    ensures var x, y := Val(m.regs, s) as int, Val(m.regs, t) as int;
            Leaves(Op.Alu(Sub, d, s, t), m, d, (x - y) % 0x1_0000_0000_0000_0000)
  {
    AluCode(Sub, d, s, t, m);
  }

  /** MUL leaves the product. */
  lemma MulCode(d: Reg, s: IrReg, t: IrReg, m: Machine)
    requires Sound(Op.Alu(Mul, d, s, t))
    ensures var x, y := Val(m.regs, s) as int, Val(m.regs, t) as int;
            Leaves(Op.Alu(Mul, d, s, t), m, d, (x * y) % 0x1_0000_0000_0000_0000)
  {
    AluCode(Mul, d, s, t, m);
  }

  /** The code of op falls through with v in register d and every other register and memory as before. */
  ghost predicate Leaves(op: Op, m: Machine, d: Reg, v: int) {
    var o := RunBytes(Code(op), m);
    && o.Next? && o.m.mem == m.mem && o.m.regs[d] == v
    && forall r: Reg :: r != d ==> o.m.regs[r] == m.regs[r]
  }

  /** ADD and then SUB of the same operand gives the first operand back. */
  lemma AddThenSub(d: Reg, s: IrReg, t: IrReg, m: Machine)
    requires Sound(Op.Alu(Add, d, s, t))
    ensures var o := RunBytes(CodeAll([Op.Alu(Add, d, s, t), Op.Alu(Sub, d, d, t)]), m);
            o.Next? && o.m.regs[d] == if t == d then 0 else Val(m.regs, s)
  {
    var add, sub := Op.Alu(Add, d, s, t), Op.Alu(Sub, d, d, t);
    TwoOps(add, sub, m);
    AluCode(Add, d, s, t, m);
    var m1 := RunBytes(Code(add), m).m;
    AluCode(Sub, d, d, t, m1);
    var x, y := Val(m.regs, s), Val(m.regs, t);
    if t == d {
      SelfDifference(m1.regs[d]);
    } else {
      SubUndoesAdd(x, y);
    }
  }

  lemma SelfDifference(x: Word)
    ensures Compute(Sub, x, x) == 0
  {
  }

  lemma TwoOps(a: Op, b: Op, m: Machine)
    requires IsData(a) && Sound(a) && IsData(b) && Sound(b)
    ensures var o := RunBytes(Code(a), m);
            RunBytes(CodeAll([a, b]), m) == if o.Next? then RunBytes(Code(b), o.m) else o
  {
    assert [a, b][1..] == [b] && [b][1..] == [];
    FirstThenRest([a, b], m);
    assert CodeAll([b]) == Code(b);
  }

  /** AND, OR and XOR combine the operands bit by bit. */
  lemma LogicCode(k: BinOp, d: Reg, s: IrReg, t: IrReg, m: Machine, i: nat)
    requires (k == BinOp.And || k == BinOp.Or || k == BinOp.Xor) && Sound(Op.Alu(k, d, s, t))
    ensures var o := RunBytes(Code(Op.Alu(k, d, s, t)), m);
            var x, y := BitAt(Val(m.regs, s), i), BitAt(Val(m.regs, t), i);
            o.Next? && (BitAt(o.m.regs[d], i) <==>
                          if k == BinOp.And then x && y else if k == BinOp.Or then x || y else x != y)
  {
    AluCode(k, d, s, t, m);
    LogicBits(Val(m.regs, s), Val(m.regs, t), i);
  }

  // ----- Shifts and comparison -----

  /** v is x times 2^count without the bits that leave the word. */
  predicate IsLeftShift(x: int, count: nat, v: int) {
    v == (x * Pow2(count)) % 0x1_0000_0000_0000_0000
  }

  /** v, read as a signed number, is the signed x over 2^count, rounded down. */
  predicate IsRightShift(x: Word, count: nat, v: Word) {
    Signed(v) * Pow2(count) <= Signed(x) < Signed(v) * Pow2(count) + Pow2(count)
  }

  lemma {:induction false} ShiftValue(left: bool, x: Word, count: nat)
    ensures if left then IsLeftShift(x, count, ShiftBy(left, x, count))
            else IsRightShift(x, count, ShiftBy(left, x, count))
  {
    if !left {
      RightShiftFloors(x, count);
    }
  }

  /** SHIFTL and SHIFTR shift by the count modulo 64 and keep the other registers. */
  lemma ShiftCode(left: bool, d: Reg, s: IrReg, t: IrReg, m: Machine)
    requires Sound(Op.Shift(left, d, s, t))
    ensures var o := RunBytes(Code(Op.Shift(left, d, s, t)), m);
            var x, count := Val(m.regs, s), Val(m.regs, t) % 64;
            && o.Next? && (forall r: Reg :: r != d ==> o.m.regs[r] == m.regs[r])
            && if left then IsLeftShift(x, count, o.m.regs[d]) else IsRightShift(x, count, o.m.regs[d])
  {
    SoundIsWellFormed(Op.Shift(left, d, s, t));
    RunBytesIsRun(LowerShift(left, d, s, t), m);
    if s == R0 || t == R0 {
      ShiftWithR0Runs(left, d, s, t, m);
    } else {
      ShiftOperands(left, d, s, t, m);
    }
    ShiftValue(left, Val(m.regs, s), Val(m.regs, t) % 64);
  }

  /** SHIFTLI and SHIFTRI likewise shift by the immediate modulo 64. */
  lemma ShiftImmCode(left: bool, d: Reg, s: IrReg, i: int, m: Machine)
    requires IsInt32(i) && Sound(Op.ShiftImm(left, d, s, i))
    ensures var o := RunBytes(Code(Op.ShiftImm(left, d, s, i)), m);
            && o.Next? && OnlyChanged(m, o.m, d, o.m.regs[d])
            && if left then IsLeftShift(Val(m.regs, s), i % 64, o.m.regs[d])
               else IsRightShift(Val(m.regs, s), i % 64, o.m.regs[d])
  {
    SoundIsWellFormed(Op.ShiftImm(left, d, s, i));
    RunBytesIsRun(LowerShiftImm(left, d, s, i), m);
    ShiftImmRuns(left, d, s, i, m);
    ShiftValue(left, Val(m.regs, s), i % 64);
  }

  /** ADDI leaves the sum with the immediate. */
  lemma {:induction false} AddImmCode(d: Reg, s: IrReg, i: int, m: Machine)
    requires IsInt32(i) && Sound(Op.AddImm(d, s, i))
    ensures Leaves(Op.AddImm(d, s, i), m, d, (Val(m.regs, s) + i) % 0x1_0000_0000_0000_0000)
  {
    if s == R0 {
      AddImmToNothing(d, i, m);
    } else {
      assert s == d && i == 0 && Op.AddImm(d, s, i) == Op.AddImm(d, d, 0);
      AddImmInPlace(d, m);
    }
  }

  lemma AddImmToNothing(d: Reg, i: int, m: Machine)
    requires IsInt32(i)
    ensures Leaves(Op.AddImm(d, R0, i), m, d, i % 0x1_0000_0000_0000_0000)
  {
    SoundIsWellFormed(Op.AddImm(d, R0, i));
    RunBytesIsRun(LowerAddImm(d, R0, i), m);
    LoadImmRuns(d, i, m);
  }

  lemma AddImmInPlace(d: Reg, m: Machine)
    ensures Leaves(Op.AddImm(d, d, 0), m, d, m.regs[d])
    ensures m.regs[d] % 0x1_0000_0000_0000_0000 == m.regs[d]
  {
    SoundIsWellFormed(Op.AddImm(d, d, 0));
    RunBytesIsRun(LowerAddImm(d, d, 0), m);
    assert LowerAddImm(d, d, 0) == [];
    WrapSmall(m.regs[d]);
  }

  lemma LoadImmRuns(d: Reg, i: int, m: Machine)
    requires IsInt32(i)
    ensures Run(LowerAddImm(d, R0, i), m) == Next(Put(m, d, Wrap(i)))
  {
    assert LowerAddImm(d, R0, i) == [MovImm(d, i)];
    RunOne(MovImm(d, i), m);
    ExecMovImm(d, i, m);
  }

  /** x as a two's complement number. */
  function TwosComplement(x: Word): int {
    if x < 0x8000_0000_0000_0000 then x else x - 0x1_0000_0000_0000_0000
  }

  /** LESS leaves 1 if the first operand is the smaller signed number and 0 otherwise. */
  lemma LessCode(d: Reg, s: IrReg, t: IrReg, m: Machine)
    requires Sound(Op.Less(d, s, t))
    ensures var o := RunBytes(Code(Op.Less(d, s, t)), m);
            && o.Next? && (forall r: Reg :: r != d && r != 0 ==> o.m.regs[r] == m.regs[r])
            && o.m.regs[d] == if TwosComplement(Val(m.regs, s)) < TwosComplement(Val(m.regs, t)) then 1 else 0
  {
    SoundIsWellFormed(Op.Less(d, s, t));
    RunBytesIsRun(LowerLess(d, s, t), m);
    LessInstructions(d, s, t, m);
  }

  lemma LessInstructions(d: Reg, s: IrReg, t: IrReg, m: Machine)
    requires s != R0 || s == t
    ensures var o, v := Run(LowerLess(d, s, t), m), Flag(Signed(Val(m.regs, s)) < Signed(Val(m.regs, t)));
            o.Next? && o.m.regs == (if s == t then m.regs else m.regs[RAX := v])[d := v]
  {
    if s == t {
      ExecMovImm(d, 0, m);
      RunOne(MovImm(d, 0), m);
    } else {
      LessRuns(d, s, t, m);
      CompareIsSigned(Val(m.regs, s), Val(m.regs, t));
    }
  }

  // ----- Division -----

  /** On its dividends, DIV leaves the truncated quotient: the remainder is smaller than the divisor and has
      the sign of the dividend. */
  lemma DivCode(d: Reg, s: Reg, t: Reg, m: Machine)
    requires Sound(Op.Div(d, s, t)) && m.regs[t] != 0
    requires m.regs[s] < 0x8000_0000_0000_0000 && m.regs[s] % 0x1_0000_0000 < 0x8000_0000
    ensures var o := RunBytes(Code(Op.Div(d, s, t)), m);
            && o.Next? && (forall r: Reg :: r != d && r != 0 ==> o.m.regs[r] == m.regs[r])
            && IsQuotient(TwosComplement(m.regs[s]), TwosComplement(m.regs[t]), TwosComplement(o.m.regs[d]))
  {
    SoundIsWellFormed(Op.Div(d, s, t));
    RunBytesIsRun(LowerDiv(d, s, t), m);
    var x, y := Signed(m.regs[s]), Signed(m.regs[t]);
    DivEffect(d, s, t, m);
    QuotientFits(x, y);
    QuotientLaw(x, y);
    SignedOfWrap(TruncDiv(x, y));
  }

  /** With sound operands and a nonzero divisor, the bytes leave the truncated quotient exactly when the
      dividend is below 2^63 with bit 31 clear; otherwise they fault or leave something else. */
  lemma DivCodeExact(d: Reg, s: Reg, t: Reg, m: Machine)
    requires Sound(Op.Div(d, s, t)) && m.regs[t] != 0
    ensures var o := RunBytes(Code(Op.Div(d, s, t)), m);
            (o.Next? && IsQuotient(TwosComplement(m.regs[s]), TwosComplement(m.regs[t]), TwosComplement(o.m.regs[d])))
            <==> m.regs[s] < 0x8000_0000_0000_0000 && m.regs[s] % 0x1_0000_0000 < 0x8000_0000
  {
    if m.regs[s] < 0x8000_0000_0000_0000 && m.regs[s] % 0x1_0000_0000 < 0x8000_0000 {
      DivCode(d, s, t, m);
    } else {
      DivMisses(d, s, t, m);
    }
  }

  lemma DivMisses(d: Reg, s: Reg, t: Reg, m: Machine)
    requires Sound(Op.Div(d, s, t)) && m.regs[t] != 0
    requires !(m.regs[s] < TWO_63 && Wrap32(m.regs[s]) < TWO_31)
    ensures var o := RunBytes(Code(Op.Div(d, s, t)), m);
            o.Next? ==> !IsQuotient(Signed(m.regs[s]), Signed(m.regs[t]), Signed(o.m.regs[d]))
  {
    SoundIsWellFormed(Op.Div(d, s, t));
    RunBytesIsRun(LowerDiv(d, s, t), m);
    DivEffect(d, s, t, m);
    var x, y, o := Signed(m.regs[s]), Signed(m.regs[t]), Run(LowerDiv(d, s, t), m);
    if o.Next? && IsQuotient(x, y, Signed(o.m.regs[d])) {
      SignedOfWrap(TruncDiv(Dividend(m.regs[s]), y));
      QuotientLaw(x, y);
      QuotientUnique(x, y, Signed(o.m.regs[d]), TruncDiv(x, y));
      WrongQuotient(m.regs[s], m.regs[t]);
      assert false;
    }
  }

  // ----- Loads and stores -----

  /** LOAD32 leaves the number in four bytes, zero-extended, and LOAD64 that in eight. */
  lemma LoadCode(wide: bool, d: Reg, s: Reg, o: int, m: Machine)
    requires IsInt32(o) && Sound(Op.Load(wide, d, s, o))
    ensures var r := RunBytes(Code(Op.Load(wide, d, s, o)), m);
            var a := (m.regs[s] + o) % 0x1_0000_0000_0000_0000;
            && r.Next? && r.m.mem == m.mem && (forall q: Reg :: q != d && q != 0 ==> r.m.regs[q] == m.regs[q])
            && r.m.regs[d] == FourBytes(m.mem, a) + if wide then 0x1_0000_0000 * FourBytes(m.mem, Next64(a, 4)) else 0
  {
    LoadLeaves(wide, d, s, o, m);
    var a := Offset(m.regs[s], o);
    if wide {
      LoadEight(m.mem, a);
    } else {
      LoadFour(m.mem, a);
    }
  }

  lemma LoadLeaves(wide: bool, d: Reg, s: Reg, o: int, m: Machine)
    requires IsInt32(o) && Sound(Op.Load(wide, d, s, o))
    ensures var r := RunBytes(Code(Op.Load(wide, d, s, o)), m);
            && r.Next? && r.m.mem == m.mem && (forall q: Reg :: q != d && q != 0 ==> r.m.regs[q] == m.regs[q])
            && r.m.regs[d] == LoadedValue(wide, m.mem, Offset(m.regs[s], o))
  {
    SoundIsWellFormed(Op.Load(wide, d, s, o));
    RunBytesIsRun(LowerLoad(wide, d, s, o), m);
    LoadRuns(wide, d, s, o, m);
  }

  /** STORE32 leaves the low half of the source in four bytes, STORE64 the whole in eight, and no other byte
      differs. */
  lemma StoreCode(wide: bool, d: Reg, o: int, s: Reg, m: Machine)
    requires IsInt32(o) && Sound(Op.Store(wide, d, o, s))
    ensures var r := RunBytes(Code(Op.Store(wide, d, o, s)), m);
            var a, v := (m.regs[d] + o) % 0x1_0000_0000_0000_0000, m.regs[s];
            && r.Next? && (forall q: Reg :: q != 0 ==> r.m.regs[q] == m.regs[q]) && r.m.regs[d] == m.regs[d]
            && FourBytes(r.m.mem, a) == v % 0x1_0000_0000
            && (wide ==> FourBytes(r.m.mem, Next64(a, 4)) == v / 0x1_0000_0000)
            && forall b: Word :: !InWindow(b, a, if wide then 8 else 4) ==> At(r.m.mem, b) == At(m.mem, b)
  {
    StoreLeaves(wide, d, o, s, m);
    StoredBytesAre(wide, m.mem, Offset(m.regs[d], o), m.regs[s]);
  }

  lemma StoreLeaves(wide: bool, d: Reg, o: int, s: Reg, m: Machine)
    requires IsInt32(o) && Sound(Op.Store(wide, d, o, s))
    ensures var r := RunBytes(Code(Op.Store(wide, d, o, s)), m);
            && r.Next? && (forall q: Reg :: q != 0 ==> r.m.regs[q] == m.regs[q]) && r.m.regs[d] == m.regs[d]
            && r.m.mem == StoreBytes(m.mem, Offset(m.regs[d], o), ToBytes(m.regs[s], Width(wide)))
  {
    SoundIsWellFormed(Op.Store(wide, d, o, s));
    RunBytesIsRun(LowerStore(wide, d, o, s), m);
    SoundStoreRuns(wide, d, o, s, m);
  }

  lemma StoredBytesAre(wide: bool, mem: Mem, a: Word, v: Word)
    ensures var mem' := StoreBytes(mem, a, ToBytes(v, Width(wide)));
            && FourBytes(mem', a) == v % 0x1_0000_0000
            && (wide ==> FourBytes(mem', Next64(a, 4)) == v / 0x1_0000_0000)
            && forall b: Word :: !InWindow(b, a, if wide then 8 else 4) ==> At(mem', b) == At(mem, b)
  {
    var n := Width(wide);
    var bs := ToBytes(v, n);
    var mem' := StoreBytes(mem, a, bs);
    forall b: Word | !InWindow(b, a, n) ensures At(mem', b) == At(mem, b) {
      StoreOutside(mem, a, bs, b);
    }
    ReadBackStored(wide, mem, a, v);
    if wide {
      LoadEight(mem', a);
      HalvesAreDigits(v, FourBytes(mem', a), FourBytes(mem', Next64(a, 4)));
    } else {
      LoadFour(mem', a);
    }
  }

  lemma HalvesAreDigits(v: Word, low: int, high: int)
    requires v == low + 0x1_0000_0000 * high && 0 <= low < 0x1_0000_0000
    ensures low == v % 0x1_0000_0000 && high == v / 0x1_0000_0000
  {
    DivModUnique(v, TWO_32, high, low);
  }

  /** Loading what was stored at the same width. */
  lemma ReadBackStored(wide: bool, mem: Mem, a: Word, v: Word)
    ensures LoadedValue(wide, StoreBytes(mem, a, ToBytes(v, Width(wide))), a)
         == if wide then v else v % 0x1_0000_0000
  {
    var n := Width(wide);
    LoadAfterStore(mem, a, ToBytes(v, n));
    LowBytesValue(v, n);
    WrapSmall(FromBytes(ToBytes(v, n)));
  }

  lemma {:induction false} LowBytesValue(v: Word, n: nat)
    requires n == 4 || n == 8
    ensures FromBytes(ToBytes(v, n)) == if n == 8 then v else v % 0x1_0000_0000
  {
    Pow256Values();
    if n == 8 {
      BytesRoundTrip(v, n);
    } else {
      LowBytes(v, n);
      BytesRoundTrip(v % TWO_32, n);
    }
  }

  /** The first four bytes of a number depend on its value modulo 2^32 only. */
  lemma LowBytes(v: nat, n: nat)
    requires n == 4
    ensures ToBytes(v, n) == ToBytes(v % 0x1_0000_0000, n)
  {
    ToBytes4(v);
    ToBytes4(v % TWO_32);
    SameDigits(v, v % TWO_32, v / TWO_32);
  }

  lemma SameDigits(v: nat, w: nat, k: nat)
    requires v == w + 0x1_0000_0000 * k
    ensures v % 256 == w % 256 && v / 256 % 256 == w / 256 % 256
    ensures v / 0x1_0000 % 256 == w / 0x1_0000 % 256 && v / 0x100_0000 % 256 == w / 0x100_0000 % 256
  {
    DivModUnique(v, 256, w / 256 + 0x100_0000 * k, w % 256);
    DivModUnique(v, 0x1_0000, w / 0x1_0000 + 0x1_0000 * k, w % 0x1_0000);
    DivModUnique(v, 0x100_0000, w / 0x100_0000 + 0x100 * k, w % 0x100_0000);
    SameLowByte(w / 256, 0x1_0000 * k);
    SameLowByte(w / 0x1_0000, 0x100 * k);
    SameLowByte(w / 0x100_0000, k);
  }

  lemma SameLowByte(x: nat, k: nat)
    ensures (x + 256 * k) % 256 == x % 256
  {
    DivModUnique(x + 256 * k, 256, x / 256 + k, x % 256);
  }

  /** Storing a register and loading it back at the same width gives the register, or its low half. */
  lemma StoreThenLoad(wide: bool, d: Reg, o: int, s: Reg, e: Reg, m: Machine)
    requires IsInt32(o) && Sound(Op.Store(wide, d, o, s))
    ensures var r := RunBytes(CodeAll([Op.Store(wide, d, o, s), Op.Load(wide, e, d, o)]), m);
            r.Next? && r.m.regs[e] == if wide then m.regs[s] else m.regs[s] % 0x1_0000_0000
  {
    var store, load := Op.Store(wide, d, o, s), Op.Load(wide, e, d, o);
    TwoOps(store, load, m);
    StoreLeaves(wide, d, o, s, m);
    LoadLeaves(wide, e, d, o, RunBytes(Code(store), m).m);
    ReadBackStored(wide, m.mem, Offset(m.regs[d], o), m.regs[s]);
  }
}

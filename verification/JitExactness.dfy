/** Where the emitter's code is wrong. For every operation the static condition Sound is exactly the
    condition for correct code; for division the dividend condition Workable is exact as well. */
module JitExactness {
  import opened Bits
  import opened X64Encoding
  import opened X64Machine
  import opened JitIr
  import opened JitTables
  import opened JitSimulation
  import opened JitWitnesses
  import opened JitMemoryExactness

  // ----- ADD, SUB, MUL, AND, OR, XOR -----

  lemma SmallBits()
    ensures Bitwise(BitOp.And, 1, 1) == 1 && Bitwise(BitOp.And, 1, 0) == 0 && Bitwise(BitOp.And, 0, 1) == 0
    ensures Bitwise(BitOp.Or, 0, 0) == 0 && Bitwise(BitOp.Or, 0, 1) == 1
    ensures Bitwise(BitOp.Xor, 1, 1) == 0 && Bitwise(BitOp.Xor, 1, 0) == 1
  {
  }

  /** Operand values on which overwriting the second operand by the first shows. */
  function FirstWitness(k: BinOp): Word { if k.Or? then 0 else 1 }

  function SecondWitness(k: BinOp): Word { if k.Or? then 1 else 0 }

  lemma OverlapShows(k: BinOp)
    ensures Compute(k, FirstWitness(k), FirstWitness(k)) != Compute(k, FirstWitness(k), SecondWitness(k))
  {
    SmallBits();
  }

  /** The destination is also the second operand: MOV overwrites it before it is read. */
  lemma OverlapRefuted(k: BinOp, d: Reg, s: Reg)
    requires s != d
    ensures !Correct(Op.Alu(k, d, s, d))
  {
    var regs := Uniform(0)[s := FirstWitness(k)][d := SecondWitness(k)];
    OverlapShows(k);
    RunMovThenOp(k, d, s, d, MachineOf(regs));
    WrongValue(Op.Alu(k, d, s, d), regs);
  }

  /** Code that copies one operand where the result differs from it. */
  lemma CopyRefuted(k: BinOp, d: Reg, s: IrReg, t: IrReg, from: Reg)
    requires LowerAlu(k, d, s, t) == CopyTo(d, from)
    requires Compute(k, Val(Uniform(1), s), Val(Uniform(1), t)) != 1
    ensures !Correct(Op.Alu(k, d, s, t))
  {
    RunCopyOnly(d, from, MachineOf(Uniform(1)));
    WrongValue(Op.Alu(k, d, s, t), Uniform(1));
  }

  lemma UnsoundAlu(k: BinOp, d: IrReg, s: IrReg, t: IrReg)
    requires !Sound(Op.Alu(k, d, s, t))
    ensures !Correct(Op.Alu(k, d, s, t))
  {
    SmallBits();
    if s != R0 && t == d && s != d {
      OverlapRefuted(k, d, s);
    } else {
      CopyRefuted(k, d, s, t, if s == R0 then t else s);
    }
  }

  // ----- LESS -----

  /** With R0 first the code tests t < 0 instead of 0 < t. */
  lemma UnsoundLess(d: IrReg, s: IrReg, t: IrReg)
    requires !Sound(Op.Less(d, s, t))
    ensures !Correct(Op.Less(d, s, t))
  {
    LessRuns(d, s, t, MachineOf(Uniform(1)));
    CompareIsSigned(1, 0);
    WrongValue(Op.Less(d, s, t), Uniform(1));
  }

  // ----- Shifts -----

  /** 8 shifted by 8 either way is not 8. */
  lemma EightShifted(left: bool, x: Word, count: nat)
    requires x == 8 && count == 8
    ensures ShiftBy(left, x, count) != 8
  {
    assert Pow2(count) == 256 by { Pow2Values(); }
  }

  /** The value a shift is meant to leave in its destination. */
  lemma ShiftMeaning(left: bool, d: Reg, s: IrReg, t: IrReg, regs: Regs)
    ensures var r := IrStep(Op.Shift(left, d, s, t), StateOf(regs));
            r.Some? && r.value.regs[d] == ShiftBy(left, Val(regs, s), Val(regs, t) % 64)
  {
  }

  lemma ShiftRefuted(left: bool, d: Reg, s: IrReg, t: IrReg, regs: Regs)
    requires var o := Run(LowerShift(left, d, s, t), MachineOf(regs));
             o.Next? ==> o.m.regs[d] != ShiftBy(left, Val(regs, s), Val(regs, t) % 64)
    ensures !Correct(Op.Shift(left, d, s, t))
  {
    var op := Op.Shift(left, d, s, t);
    ShiftMeaning(left, d, s, t, regs);
    ShiftWellFormed(left, d, s, t);
    WrongValue(op, regs);
  }

  /** Shifting the stack pointer when PUSH lowers it to 0: POP leaves RSP at 0 + 8. */
  lemma RunStackShift(left: bool, t: Reg, m: Machine)
    requires m.regs[RSP] == 8
    ensures var o := Exec(Pop(RCX), ShiftShifted(left, RSP, t, m));
            o.Next? && o.m.regs[RSP] == 8
  {
    var m2 := ShiftCounted(t, m);
    assert m2.regs[RSP] == 0;
    ShiftOfZero(left, m2.regs[RCX] % 64);
    assert ShiftShifted(left, RSP, t, m).regs[RSP] == 0;
  }

  /** Shifting RCX: POP puts the unshifted value back. */
  lemma RunCounterShift(left: bool, t: Reg, m: Machine)
    ensures var o := Exec(Pop(RCX), ShiftShifted(left, RCX, t, m));
            o.Next? && o.m.regs[RCX] == m.regs[RCX]
  {
    PopRestores(m, ShiftShifted(left, RCX, t, m), RCX);
  }

  /** Counting by RSP when PUSH has lowered it to 0: nothing is shifted. */
  lemma RunShiftByStack(left: bool, d: Reg, m: Machine)
    requires d != RCX && d != RSP && m.regs[RSP] == 8
    ensures var o := Exec(Pop(RCX), ShiftShifted(left, d, RSP, m));
            o.Next? && o.m.regs[d] == m.regs[d]
  {
    var m2 := ShiftCounted(RSP, m);
    assert m2.regs[RCX] == 0 && m2.regs[d] == m.regs[d];
    ShiftByZero(left, m2.regs[d]);
    PopRestores(m, ShiftShifted(left, d, RSP, m), RCX);
  }

  lemma RunUnsoundShift(left: bool, d: Reg, s: Reg, t: Reg, m: Machine)
    requires d == RCX || d == RSP || t == RSP
    requires m.regs[RSP] == 8 && m.regs[d] == 8 && m.regs[s] == 8
    ensures var o := Run(LowerShift(left, d, s, t), m);
            o.Next? && o.m.regs[d] == 8
  {
    RunCopy(d, s, [Push(RCX), Mov(RCX, t), ShiftInstr(left, d), Pop(RCX)], m);
    assert m.regs[d := m.regs[s]] == m.regs;
    ShiftRuns(left, d, t, m);
    if d == RSP {
      RunStackShift(left, t, m);
    } else if d == RCX {
      RunCounterShift(left, t, m);
    } else {
      RunShiftByStack(left, d, m);
    }
  }

  lemma StackOrCounterShift(left: bool, d: Reg, s: Reg, t: Reg)
    requires d == RCX || d == RSP || t == RSP
    ensures !Correct(Op.Shift(left, d, s, t))
  {
    var regs := Uniform(8);
    EightShifted(left, regs[s], regs[t] % 64);
    RunUnsoundShift(left, d, s, t, MachineOf(regs));
    ShiftRefuted(left, d, s, t, regs);
  }

  /** With R0 as the count the code stores -1 in the source and leaves the destination alone. */
  lemma ShiftByR0(left: bool, d: Reg, s: Reg)
    requires s != d
    ensures !Correct(Op.Shift(left, d, s, R0))
  {
    var regs := Uniform(0)[s := 1];
    RunOne(MovImm(s, R0), MachineOf(regs));
    ShiftByZero(left, 1);
    ShiftRefuted(left, d, s, R0, regs);
  }

  /** The count is also the destination: MOV overwrites it before it is read. */
  lemma RunOverlappingShift(left: bool, d: Reg, s: Reg, m: Machine)
    requires d != RCX && d != RSP && s != d
    ensures var o := Run(LowerShift(left, d, s, d), m);
            o.Next? && o.m.regs[d] == ShiftBy(left, m.regs[s], m.regs[s] % 64)
  {
    var m0 := Put(m, d, m.regs[s]);
    RunCopy(d, s, [Push(RCX), Mov(RCX, d), ShiftInstr(left, d), Pop(RCX)], m);
    ShiftRuns(left, d, d, m0);
    ShiftEffect(left, d, d, m0);
  }

  lemma OverlappingShift(left: bool, d: Reg, s: Reg)
    requires d != RCX && d != RSP && s != d
    ensures !Correct(Op.Shift(left, d, s, d))
  {
    var regs := Uniform(8)[d := 0];
    ShiftByZero(left, regs[s]);
    OverlapShiftValue(left, d, s, regs);
    ShiftRefuted(left, d, s, d, regs);
  }

  lemma OverlapShiftValue(left: bool, d: Reg, s: Reg, regs: Regs)
    requires d != RCX && d != RSP && s != d && regs[s] == 8
    ensures var o := Run(LowerShift(left, d, s, d), MachineOf(regs));
            o.Next? && o.m.regs[d] == ShiftBy(left, 8, 8)
  {
    RunOverlappingShift(left, d, s, MachineOf(regs));
  }

  lemma UnsoundShift(left: bool, d: IrReg, s: IrReg, t: IrReg)
    requires !Sound(Op.Shift(left, d, s, t))
    ensures !Correct(Op.Shift(left, d, s, t))
  {
    if t == R0 {
      ShiftByR0(left, d, s);
    } else if d == RCX || d == RSP || t == RSP {
      StackOrCounterShift(left, d, s, t);
    } else {
      OverlappingShift(left, d, s);
    }
  }

  // ----- Immediates -----

  /** With R0 as destination a move to RDI is left, unless it moves RDI to itself. */
  lemma AddImmToR0(s: IrReg, i: int)
    requires IsInt32(i) && !Sound(Op.AddImm(R0, s, i))
    ensures !Correct(Op.AddImm(R0, s, i))
  {
    var regs := Uniform(1)[RDI := 2];
    AddImmToR0Runs(s, i, MachineOf(regs));
    WrongRegister(Op.AddImm(R0, s, i), regs, RDI);
  }

  /** With two registers nothing is emitted. */
  lemma AddImmEmitsNothing(d: Reg, s: Reg, i: int)
    requires IsInt32(i) && !Sound(Op.AddImm(d, s, i))
    ensures !Correct(Op.AddImm(d, s, i))
  {
    var regs := Uniform(0)[d := Wrap(i + 1)];
    WrongRegister(Op.AddImm(d, s, i), regs, d);
  }

  lemma UnsoundAddImm(d: IrReg, s: IrReg, i: int)
    requires IsInt32(i) && !Sound(Op.AddImm(d, s, i))
    ensures !Correct(Op.AddImm(d, s, i))
  {
    if d == R0 {
      AddImmToR0(s, i);
    } else {
      AddImmEmitsNothing(d, s, i);
    }
  }

  lemma ShiftedOne(left: bool, count: nat)
    requires 0 < count < 64
    ensures ShiftBy(left, 1, count) != 1
  {
    assert Pow2(count) == 2 * Pow2(count - 1);
    Pow2Below64(count);
    if !left {
      DivModUnique(1, Pow2(count), 0, 1);
    }
  }

  lemma {:induction false} Pow2Below64(k: nat)
    requires k < 64
    ensures Pow2(k) <= TWO_63
    decreases 64 - k
  {
    Pow2Values();
    if k == 63 {
      assert Pow2(64) == 2 * Pow2(63);
    } else {
      Pow2Below64(k + 1);
      assert Pow2(k + 1) == 2 * Pow2(k);
    }
  }

  /** Shifting by 63 on either side keeps only the lowest or the sign bit. */
  lemma ShiftBy63(x: Word, count: nat)
    requires Pow2(count) == TWO_63
    ensures ShiftBy(true, x, count) == if x % 2 == 0 then 0 else TWO_63
    ensures ShiftBy(false, x, count) == if x < TWO_63 then 0 else TWO_64 - 1
  {
    assert x * TWO_63 == (x / 2) * TWO_64 + (x % 2) * TWO_63;
    DivModUnique(x * TWO_63, TWO_64, x / 2, (x % 2) * TWO_63);
    if x >= TWO_63 {
      DivModUnique(Signed(x), TWO_63, -1, x - TWO_63);
    }
  }

  lemma LastCount(i: int)
    requires i == R0
    ensures Pow2(i % 64) == TWO_63
  {
    Pow2Values();
    var k := i % 64;
    assert Pow2(k + 1) == 2 * Pow2(k) && k + 1 == 64;
  }

  /** For the immediate -1 the number of the source register is shifted, not its value. */
  lemma ShiftOfNumber(left: bool, d: Reg, s: Reg, i: int)
    requires s != d && i == R0
    ensures !Correct(Op.ShiftImm(left, d, s, i))
  {
    var v := if left then 1 - s % 2 else TWO_63;
    ShiftByLast(left, d, s, i, MachineOf(Uniform(v)));
    LastCount(i);
    ShiftBy63(s, i % 64);
    ShiftBy63(v, i % 64);
    ShiftImmMeaning(left, d, s, i, Uniform(v));
    WrongRegister(Op.ShiftImm(left, d, s, i), Uniform(v), d);
  }

  lemma ShiftImmMeaning(left: bool, d: Reg, s: Reg, i: int, regs: Regs)
    requires IsInt32(i)
    ensures var r := IrStep(Op.ShiftImm(left, d, s, i), StateOf(regs));
            r.Some? && r.value.regs[d] == ShiftBy(left, regs[s], i % 64) && r.value.raxLive
  {
  }

  /** For other immediates nothing is emitted. */
  lemma ShiftImmEmitsNothing(left: bool, d: Reg, s: Reg, i: int)
    requires IsInt32(i) && i != R0 && (s != d || i % 64 != 0)
    ensures !Correct(Op.ShiftImm(left, d, s, i))
  {
    var regs := if s == d then Uniform(1) else Uniform(0)[d := 1];
    ShiftImmMeaning(left, d, s, i, regs);
    if s == d {
      ShiftedOne(left, i % 64);
    } else {
      ShiftOfZero(left, i % 64);
    }
    assert LowerShiftImm(left, d, s, i) == [];
    WrongRegister(Op.ShiftImm(left, d, s, i), regs, d);
  }

  lemma UnsoundShiftImm(left: bool, d: IrReg, s: IrReg, i: int)
    requires IsInt32(i) && !Sound(Op.ShiftImm(left, d, s, i))
    ensures !Correct(Op.ShiftImm(left, d, s, i))
  {
    if i == R0 {
      ShiftOfNumber(left, d, s, i);
    } else {
      ShiftImmEmitsNothing(left, d, s, i);
    }
  }

  // ----- Division: operands -----

  lemma SmallQuotients()
    ensures TruncDiv(8, 8) == 1 && TruncDiv(8, 4) == 2 && TruncDiv(0, 8) == 0
  {
  }

  lemma DivRefuted(d: Reg, s: Reg, t: Reg, regs: Regs)
    requires regs[s] == 8 && (regs[t] == 8 || regs[t] == 4)
    requires var o := Run(LowerDiv(d, s, t), MachineOf(regs));
             o.Next? ==> o.m.regs[d] != 8 / regs[t]
    ensures !Correct(Op.Div(d, s, t))
  {
    var op := Op.Div(d, s, t);
    SmallQuotients();
    assert IrStep(op, StateOf(regs)).Some? && IrStep(op, StateOf(regs)).value.regs[d] == 8 / regs[t];
    WrongValue(op, regs);
  }

  /** The registers IDIV sees, from registers that are 8 except possibly RAX. */
  lemma SmallDivReady(s: Reg, m: Machine)
    requires m.regs == Uniform(8) || m.regs == Uniform(8)[RAX := 4]
    requires s != RAX || m.regs == Uniform(8)
    ensures DivReady(s, m).regs == m.regs[RSP := 0][RAX := if s == RSP then 0 else m.regs[s]][RDX := 0]
  {
    var pushed := PushValue(m, m.regs[RDX]).regs;
    assert Offset(8, -8) == 0;
    assert pushed == m.regs[RSP := 0];
    assert Wrap32(pushed[s]) < TWO_31;
  }

  /** IDIV with a small dividend and divisor. */
  lemma SmallIdiv(m: Machine, x: Word)
    requires m.regs[RDX] == 0 && (m.regs[RAX] == 8 || m.regs[RAX] == 0) && x == 8
    ensures var o := ExecIdiv(x, m);
            && o.Next? && o.m.regs[RAX] == (if m.regs[RAX] == 0 then 0 else 1)
            && o.m.regs[RSP] == m.regs[RSP] && o.m.mem == m.mem
  {
    SmallQuotients();
  }

  lemma UnsoundDivRuns(d: Reg, s: Reg, t: Reg, m: Machine)
    requires d == RDX || d == RSP || s == RSP || t == RDX || t == RSP
    requires m.regs == Uniform(8)
    ensures var o := Run(LowerDiv(d, s, t), m); o.Next? ==> o.m.regs[d] != 1
  {
    var m3 := DivReady(s, m);
    DivPrepares(d, s, t, m);
    DivFinishes(d, t, m3);
    SmallDivReady(s, m);
    if m3.regs[t] != 0 {
      SmallIdiv(m3, m3.regs[t]);
      var m4 := ExecIdiv(m3.regs[t], m3).m;
      var m5 := Put(m4, d, m4.regs[RAX]);
      if d == RDX {
        PopRestores(m, m5, RDX);
      }
    }
  }

  /** The divisor is RAX, which MOV has replaced by the dividend. */
  lemma DivByRax(d: Reg, s: Reg)
    requires d != RDX && d != RSP && s != RSP && s != RAX
    ensures !Correct(Op.Div(d, s, RAX))
  {
    var regs := Uniform(8)[RAX := 4];
    DivByItself(d, s, MachineOf(regs));
    DivRefuted(d, s, RAX, regs);
  }

  lemma DivByItself(d: Reg, s: Reg, m: Machine)
    requires d != RDX && d != RSP && s != RSP && s != RAX && m.regs == Uniform(8)[RAX := 4]
    ensures var o := Run(LowerDiv(d, s, RAX), m); o.Next? && o.m.regs[d] == 1
  {
    var m3 := DivReady(s, m);
    DivPrepares(d, s, RAX, m);
    DivFinishes(d, RAX, m3);
    SmallDivReady(s, m);
    SmallIdiv(m3, m3.regs[RAX]);
  }

  lemma UnsoundDiv(d: IrReg, s: IrReg, t: IrReg)
    requires !Sound(Op.Div(d, s, t))
    ensures !Correct(Op.Div(d, s, t))
  {
    if d != RDX && d != RSP && s != RSP && t == RAX {
      DivByRax(d, s);
    } else {
      UnsoundDivRuns(d, s, t, MachineOf(Uniform(8)));
      DivRefuted(d, s, t, Uniform(8));
    }
  }

  /** A zero-register operand makes the code store 0, whatever the other operand holds. */
  lemma DivWithR0(d: Reg, s: IrReg, t: IrReg, m: Machine)
    requires s == R0 || t == R0
    ensures var o := RunBytes(Code(Op.Div(d, s, t)), m);
            o.Next? && OnlyChanged(m, o.m, d, 0)
  {
    var op := Op.Div(d, s, t);
    var m' := Put(m, d, 0);
    ExecMovZero(d, m);
    RunOne(MovImm(d, 0), m);
    assert Run(Lower(op), m) == Next(m');
    SoundIsWellFormed(op);
    RunBytesIsRun(Lower(op), m);
  }

  lemma ExecMovZero(d: Reg, m: Machine)
    ensures Exec(MovImm(d, 0), m) == Next(Put(m, d, 0))
  {
  }

  // ----- Division: dividends -----

  /** The quotient IDIV computes when CDQ has not sign-extended the dividend is never the right one. */
  lemma WrongQuotient(x: Word, y: Word)
    requires y != 0 && !(x < TWO_63 && Wrap32(x) < TWO_31)
    ensures TruncDiv(Dividend(x), Signed(y)) != TruncDiv(Signed(x), Signed(y))
  {
    var n := Abs(Signed(y));
    assert 0 < n <= TWO_63;
    var big, small := Dividend(x), Abs(Signed(x));
    assert 0 <= small <= TWO_63;
    if Wrap32(x) >= TWO_31 {
      assert big >= 2 * TWO_64;
      FarApart(big, small, n);
    } else {
      AtLeastOne(x, n);
      QuotientAtMost(small, n);
    }
  }

  lemma AtLeastOne(a: nat, n: nat)
    requires 0 < n <= a
    ensures a / n >= 1
  {
    QuotientAtMost(a, n);
    assert a == n * (a / n) + a % n;
  }

  lemma FarApart(big: nat, small: nat, n: nat)
    requires 0 < n && small + n < big
    ensures big / n != small / n
  {
    assert big == n * (big / n) + big % n;
    assert small == n * (small / n) + small % n;
  }

  lemma QuotientRange(x: int, y: int)
    requires -TWO_63 <= x < TWO_63 && y != 0
    ensures -TWO_63 <= TruncDiv(x, y) <= TWO_63
  {
    QuotientAtMost(Abs(x), Abs(y));
  }

  /** With sound operands, DIV is right exactly when the dividend is below 2^63 with bit 31 clear. */
  lemma DivExact(d: Reg, s: Reg, t: Reg, m: Machine, st: IrState)
    requires Sound(Op.Div(d, s, t)) && Match(m, st) && IrStep(Op.Div(d, s, t), st).Some?
    ensures CorrectAt(Op.Div(d, s, t), m, st) <==> Workable(Op.Div(d, s, t), st)
  {
    var op := Op.Div(d, s, t);
    if Workable(op, st) {
      SoundIsCorrectAt(op, m, st);
    } else {
      ReadMatches(m, st, s);
      ReadMatches(m, st, t);
      var x, y := m.regs[s], m.regs[t];
      SoundIsWellFormed(op);
      RunBytesIsRun(Lower(op), m);
      DivEffect(d, s, t, m);
      WrongQuotient(x, y);
      QuotientRange(Signed(x), Signed(y));
      var q, q' := TruncDiv(Signed(x), Signed(y)), TruncDiv(Dividend(x), Signed(y));
      if -TWO_63 <= q' < TWO_63 {
        DifferentWords(q, q');
        assert Run(Lower(op), m).m.regs[d] == Wrap(q');
        assert IrStep(op, st).value.regs[d] == Wrap(q);
        assert d == RAX ==> IrStep(op, st).value.raxLive;
      }
    }
  }

  lemma DifferentWords(p: int, q: int)
    requires -TWO_63 <= p < TWO_63 && -TWO_63 <= q < TWO_63 && p != q
    ensures Wrap(p) != Wrap(q)
  {
    assert Wrap(p) == if p >= 0 then p else p + TWO_64;
    assert Wrap(q) == if q >= 0 then q else q + TWO_64;
  }

  // ----- The main result -----

  /** An operation's code is correct from every state exactly when its operands satisfy Sound. */
  lemma SoundIffCorrect(op: Op)
    requires IsData(op)
    ensures Correct(op) <==> Sound(op)
  {
    if Sound(op) {
      forall m: Machine, st: IrState | Match(m, st) && IrStep(op, st).Some? && Workable(op, st)
        ensures CorrectAt(op, m, st)
      {
        SoundIsCorrectAt(op, m, st);
      }
    } else {
      match op
      case Alu(k, d, s, t) => UnsoundAlu(k, d, s, t);
      case Div(d, s, t) => UnsoundDiv(d, s, t);
      case Shift(left, d, s, t) => UnsoundShift(left, d, s, t);
      case Less(d, s, t) => UnsoundLess(d, s, t);
      case Load(wide, d, s, o) => UnsoundLoad(wide, d, s, o);
      case Store(wide, d, o, s) => UnsoundStore(wide, d, o, s);
      case AddImm(d, s, i) => UnsoundAddImm(d, s, i);
      case ShiftImm(left, d, s, i) => UnsoundShiftImm(left, d, s, i);
    }
  }
}

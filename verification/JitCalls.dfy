/** JIT_CALL, JIT_CALLEX and JIT_RETURN: where the code goes, and a whole call of a straight-line callee. */
module JitCalls {
  import opened Bits
  import opened X64Encoding
  import opened X64Machine
  import opened JitIr
  import opened JitTables
  import opened JitSimulation
  import opened JitPrograms

  /** JIT_CALL pushes the address after its code and goes to its target, which counts from there; without a
      target it emits nothing. */
  lemma CallGoes(o: int, next: Word, m: Machine)
    requires IsInt32(o)
    ensures Transfer(RunBytes(Code(Op.Call(o)), m), next)
         == Some(if o > 0 || o < -1 then ((next + o) % 0x1_0000_0000_0000_0000, PushValue(m, next)) else (next, m))
  {
    OtherOpWellFormed(Op.Call(o));
    RunBytesIsRun(Lower(Op.Call(o)), m);
    if IsTarget(o) {
      RunOne(Rel32(0xE8, Wrap32(o)), m);
      AddressOf(next, o);
    }
  }

  /** JIT_CALLEX pushes the address after its code and goes to the address in its register. */
  lemma CallExGoes(s: IrReg, next: Word, m: Machine)
    ensures Transfer(RunBytes(Code(Op.CallEx(s)), m), next)
         == Some(if s != R0 then (m.regs[s], PushValue(m, next)) else (next, m))
  {
    CallExRuns(s, m);
  }

  lemma CallExRuns(s: IrReg, m: Machine)
    ensures RunBytes(Code(Op.CallEx(s)), m) == if s != R0 then CalledAt(m.regs[s], m) else Next(m)
  {
    var code := Lower(Op.CallEx(s));
    OtherOpWellFormed(Op.CallEx(s));
    RunBytesIsRun(code, m);
    if s == R0 {
      assert code == [];
    } else {
      assert code == [RR(0xFF, s, 2, true)] by { HwRegOfReg(s); }
      RunCallReg(s, m);
    }
  }

  lemma RunCallReg(s: Reg, m: Machine)
    ensures Run([RR(0xFF, s, 2, true)], m) == CalledAt(m.regs[s], m)
  {
    ExecCallReg(s, m);
    RunOne(RR(0xFF, s, 2, true), m);
  }

  lemma ExecCallReg(s: Reg, m: Machine)
    ensures Exec(RR(0xFF, s, 2, true), m) == CalledAt(m.regs[s], m)
  {
    assert BinOpOf(0xFF) == None;
  }

  /** JIT_RETURN goes to the word on top of the stack and pops it. */
  lemma ReturnGoes(next: Word, m: Machine)
    ensures Transfer(RunBytes(Code(Return), m), next)
         == Some((LoadedValue(true, m.mem, m.regs[RSP]), Put(m, RSP, Offset(m.regs[RSP], 8))))
  {
    ReturnRuns(m);
  }

  lemma ReturnRuns(m: Machine)
    ensures RunBytes(Code(Return), m) == Returned(m)
  {
    OtherOpWellFormed(Return);
    RunBytesIsRun(Lower(Return), m);
    RunOne(Ret, m);
  }

  /** The return address survives a callee that keeps the stack pointer and all memory at or above it. */
  lemma ReturnAddressKept(m: Machine, m': Machine)
    requires m'.regs[RSP] == m.regs[RSP] && SameAbove(m, m')
    ensures LoadedValue(true, m'.mem, m'.regs[RSP]) == LoadedValue(true, m.mem, m.regs[RSP])
  {
    var a, n := m.regs[RSP], Width(true);
    forall i | 0 <= i < n ensures At(m'.mem, Offset(a, i)) == At(m.mem, Offset(a, i)) {
      AboveTheSlot(a, i);
    }
    SameBytesLoaded(m.mem, m'.mem, a, n);
  }

  lemma AboveTheSlot(a: Word, i: int)
    requires 0 <= i < 8
    ensures !InWindow(Offset(a, i), Offset(a, -8), 8)
  {
    var low, high := Offset(a, -8), Offset(a, i);
    assert low == if a >= 8 then a - 8 else a - 8 + TWO_64;
    assert high == if a + i < TWO_64 then a + i else a + i - TWO_64;
    WrapDifference(high, low);
  }

  lemma {:induction false} SameBytesLoaded(mem: Mem, mem': Mem, a: Word, n: nat)
    requires n <= 8 && forall i :: 0 <= i < n ==> At(mem', Offset(a, i)) == At(mem, Offset(a, i))
    ensures LoadBytes(mem', a, n) == LoadBytes(mem, a, n)
    decreases n
  {
    if n > 0 {
      assert Offset(a, 0) == a;
      forall i | 0 <= i < n - 1
        ensures At(mem', Offset(Offset(a, 1), i)) == At(mem, Offset(Offset(a, 1), i))
      {
        OffsetSum(a, i);
      }
      SameBytesLoaded(mem, mem', Offset(a, 1), n - 1);
    }
  }

  /** A callee: a sound program that leaves the stack pointer alone and stores nothing, then JIT_RETURN. */
  predicate IsCallee(ops: seq<Op>) {
    AllSound(ops) && !Names(ops, RSP) && !HasStore(ops)
  }

  /** Calling a callee: unless one of its divisions faults, JIT_RETURN comes back to the instruction after the
      call with the stack pointer as before the call, as is every register that the callee does not name
      (RAX aside) and every byte outside the sixteen below the stack pointer. */
  lemma CallReturns(o: int, next: Word, ops: seq<Op>, m: Machine)
    requires IsInt32(o) && (o > 0 || o < -1) && IsCallee(ops)
    ensures var entered := Transfer(RunBytes(Code(Op.Call(o)), m), next);
            && entered.Some? && entered.value.0 == (next + o) % 0x1_0000_0000_0000_0000
            && var out := RunBytes(CodeAll(ops + [Return]), entered.value.1);
               if out.Stuck? then HasDivision(ops)
               else forall after: Word :: CameBack(Transfer(out, after), next, ops, m)
  {
    CallGoes(o, next, m);
    CalleeReturns(ops, next, m);
  }

  ghost predicate CameBack(r: Option<(Word, Machine)>, next: Word, ops: seq<Op>, m: Machine)
    requires AllSound(ops)
  {
    && r.Some? && r.value.0 == next && r.value.1.regs[RSP] == m.regs[RSP]
    && (forall q: Reg :: q != RAX && !Names(ops, q) ==> r.value.1.regs[q] == m.regs[q])
    && forall b: Word :: !InWindow(b, Offset(m.regs[RSP], -16), 16) ==> At(r.value.1.mem, b) == At(m.mem, b)
  }

  lemma CalleeReturns(ops: seq<Op>, next: Word, m: Machine)
    requires IsCallee(ops)
    ensures var out := RunBytes(CodeAll(ops + [Return]), PushValue(m, next));
            if out.Stuck? then HasDivision(ops)
            else forall after: Word :: CameBack(Transfer(out, after), next, ops, m)
  {
    var m1 := PushValue(m, next);
    ProgramFrame(ops, m1);
    OtherOpWellFormed(Return);
    RunThenCode(ops, Return, m1);
    var o := RunBytes(CodeAll(ops), m1);
    if o.Next? {
      ReturnRuns(o.m);
      forall after: Word ensures CameBack(Transfer(RunBytes(Code(Return), o.m), after), next, ops, m) {
        ReturnComesBack(ops, next, after, m, o.m);
      }
    }
  }

  lemma ReturnComesBack(ops: seq<Op>, next: Word, after: Word, m: Machine, m2: Machine)
    requires AllSound(ops) && !Names(ops, RSP)
    requires var m1 := PushValue(m, next);
             && m2.regs[RSP] == m1.regs[RSP] && SameAbove(m1, m2)
             && forall q: Reg :: q != RAX && !Names(ops, q) ==> m2.regs[q] == m1.regs[q]
    ensures CameBack(Transfer(RunBytes(Code(Return), m2), after), next, ops, m)
  {
    var m1 := PushValue(m, next);
    ReturnGoes(after, m2);
    assert LoadedValue(true, m2.mem, m2.regs[RSP]) == next && Offset(m2.regs[RSP], 8) == m.regs[RSP] by {
      PushPop(m, next);
      ReturnAddressKept(m1, m2);
    }
    BytesOutsideFrames(m, next, m2);
    PushKeepsRegisters(m, next);
  }

  lemma PushKeepsRegisters(m: Machine, v: Word)
    ensures forall q: Reg :: q != RSP ==> PushValue(m, v).regs[q] == m.regs[q]
  {
  }

  lemma BytesOutsideFrames(m: Machine, next: Word, m2: Machine)
    requires SameAbove(PushValue(m, next), m2)
    ensures forall b: Word :: !InWindow(b, Offset(m.regs[RSP], -16), 16) ==> At(m2.mem, b) == At(m.mem, b)
  {
    forall b: Word | !InWindow(b, Offset(m.regs[RSP], -16), 16) ensures At(m2.mem, b) == At(m.mem, b) {
      TwoSlots(m.regs[RSP], b);
      PushFrame(m, next, b);
    }
  }

  /** The sixteen bytes below a are the eight below it and the eight below those. */
  lemma TwoSlots(a: Word, b: Word)
    requires !InWindow(b, Offset(a, -16), 16)
    ensures !InWindow(b, Offset(a, -8), 8) && !InWindow(b, Offset(Offset(a, -8), -8), 8)
  {
    var s, t := Offset(a, -8), Offset(a, -16);
    assert s == if a >= 8 then a - 8 else a - 8 + TWO_64;
    assert t == if a >= 16 then a - 16 else a - 16 + TWO_64;
    assert Offset(s, -8) == t;
    WrapDifference(b, s);
    WrapDifference(b, t);
  }
}

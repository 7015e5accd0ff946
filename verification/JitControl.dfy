/** The conditional branches: JIT_BRANCH and JIT_NBRANCH on the same operands and target, alone and at the
    end of a basic block. */
module JitControl {
  import opened Bits
  import opened X64Encoding
  import opened X64Machine
  import opened JitIr
  import opened JitTables
  import opened JitSimulation
  import opened JitPrograms

  /** Only RAX and the flags may differ. */
  predicate KeepsAllButRax(m: Machine, m': Machine) {
    m'.mem == m.mem && forall r: Reg :: r != RAX ==> m'.regs[r] == m.regs[r]
  }

  /** The code jumps to o when taken, falls through otherwise, and disturbs only RAX. */
  predicate BranchesTo(o: Outcome, taken: bool, target: int, m: Machine) {
    if taken then o.Jump? && o.rel == Wrap32(target) && KeepsAllButRax(m, o.m)
    else o.Next? && KeepsAllButRax(m, o.m)
  }

  lemma RunConditional(jcc: Byte, s: IrReg, t: IrReg, o: int, m: Machine)
    requires s != t && (jcc == 0x84 || jcc == 0x85)
    ensures var equal := Val(m.regs, s) == Val(m.regs, t);
            BranchesTo(Run(LowerBranch(jcc, s, t, o), m), equal == (jcc == 0x85), o, m)
  {
    var f := CompareFlags(s, t, m.regs);
    var equal := Val(m.regs, s) == Val(m.regs, t);
    CompareIsSigned(Val(m.regs, s), Val(m.regs, t));
    CompareIsSigned(Val(m.regs, t), 0);
    assert f.zero == equal;
    var m1 := Put(m, RAX, Flag(f.zero)).(flags := Some(f));
    var tail := [TestEax] + [Jcc(jcc, Wrap32(o))];
    assert LowerBranch(jcc, s, t, o) == [CompareInstr(s, t), SetE(), MovZx()] + tail;
    RunSetCondition(SetE(), s, t, tail, m);
    RunTestAndJump(jcc, o, m1, f.zero);
  }

  /** TEST EAX, EAX and the conditional jump, with 1 or 0 in RAX. */
  lemma RunTestAndJump(jcc: Byte, o: int, m: Machine, b: bool)
    requires m.regs[RAX] == Flag(b) && (jcc == 0x84 || jcc == 0x85)
    ensures var m' := m.(flags := Some(Flags(!b, false, false)));
            Run([TestEax] + [Jcc(jcc, Wrap32(o))], m) == if b == (jcc == 0x85) then Jump(Wrap32(o), m') else Next(m')
  {
    var m' := m.(flags := Some(Flags(!b, false, false)));
    ExecTest(m, b);
    RunStep(TestEax, [Jcc(jcc, Wrap32(o))], m, m');
    RunOne(Jcc(jcc, Wrap32(o)), m');
  }

  lemma ExecTest(m: Machine, b: bool)
    requires m.regs[RAX] == Flag(b)
    ensures Exec(TestEax, m) == Next(m.(flags := Some(Flags(!b, false, false))))
  {
  }

  lemma BranchWellFormed(op: Op)
    requires op.Branch? || op.NBranch?
    ensures AllWellFormed(Lower(op))
  {
  }

  /** JIT_BRANCH jumps exactly when the operands are equal, provided the code has a target; operands that
      are the same register count as equal and then every target but -1 is taken. */
  lemma BranchOutcome(s: IrReg, t: IrReg, o: int, m: Machine)
    ensures var equal := Val(m.regs, s) == Val(m.regs, t);
            var taken := if s == t then o != -1 else (o > 0 || o < -1) && equal;
            BranchesTo(RunBytes(Code(Branch(s, t, o)), m), taken, o, m)
  {
    var op := Branch(s, t, o);
    BranchWellFormed(op);
    RunBytesIsRun(Lower(op), m);
    BranchCode(s, t, o);
    if s == t {
      JumpRuns(o, m);
    } else if IsTarget(o) {
      RunConditional(0x85, s, t, o, m);
    }
  }

  lemma JumpRuns(o: int, m: Machine)
    ensures BranchesTo(Run(LowerJump(o), m), o != -1, o, m)
  {
    if o != -1 {
      RunOne(Rel32(0xE9, Wrap32(o)), m);
    }
  }

  /** JIT_NBRANCH jumps exactly when the operands differ, provided the code has a target. */
  lemma NBranchOutcome(s: IrReg, t: IrReg, o: int, m: Machine)
    ensures var equal := Val(m.regs, s) == Val(m.regs, t);
            BranchesTo(RunBytes(Code(NBranch(s, t, o)), m), (o > 0 || o < -1) && !equal, o, m)
  {
    var op := NBranch(s, t, o);
    BranchWellFormed(op);
    RunBytesIsRun(Lower(op), m);
    if IsTarget(o) && s != t {
      RunConditional(0x84, s, t, o, m);
    }
  }

  /** On every machine exactly one of the two jumps, except that nothing jumps to the targets 0 and -1
      unless JIT_BRANCH compares a register with itself. */
  lemma BranchesAreComplements(s: IrReg, t: IrReg, o: int, m: Machine)
    ensures var branch, nbranch := RunBytes(Code(Branch(s, t, o)), m), RunBytes(Code(NBranch(s, t, o)), m);
            (branch.Jump? <==> nbranch.Next?) <==> (o > 0 || o < -1 || (o == 0 && s == t))
  {
    BranchOutcome(s, t, o, m);
    NBranchOutcome(s, t, o, m);
  }

  // ----- Basic blocks -----

  /** The operands of a branch hold defined values. */
  predicate Comparable(st: IrState, s: IrReg, t: IrReg) {
    s != t ==> Readable(st, s) && Readable(st, t)
  }

  /** A machine that differs from m only in RAX holds the same state, RAX aside. */
  lemma KeepsMatch(m: Machine, m': Machine, st: IrState)
    requires Match(m, st) && KeepsAllButRax(m, m')
    ensures Match(m', st.(raxLive := false))
  {
  }

  lemma BranchOnMatch(s: IrReg, t: IrReg, m: Machine, st: IrState)
    requires Match(m, st) && Comparable(st, s, t)
    ensures Val(m.regs, s) == Val(m.regs, t) <==> Val(st.regs, s) == Val(st.regs, t)
  {
    if s != t {
      ReadMatches(m, st, s);
      ReadMatches(m, st, t);
    }
  }

  /** The code ends by jumping to the target if taken, by falling through otherwise, in a machine that holds
      the state st, RAX aside. */
  ghost predicate EndsBlock(o: Outcome, taken: bool, target: int, st: IrState) {
    if taken then o.Jump? && o.rel == Wrap32(target) && Match(o.m, st.(raxLive := false))
    else o.Next? && Match(o.m, st.(raxLive := false))
  }

  /** A basic block: after a sound program, JIT_BRANCH goes by the values of the language, and the machine
      holds the state the program computes. */
  lemma BlockWithBranch(ops: seq<Op>, s: IrReg, t: IrReg, o: int, m: Machine, st: IrState)
    requires AllSound(ops) && Match(m, st) && IrRun(ops, st).Some? && RunWorkable(ops, st)
    requires Comparable(IrRun(ops, st).value, s, t)
    ensures var st' := IrRun(ops, st).value;
            var taken := if s == t then o != -1 else (o > 0 || o < -1) && Val(st'.regs, s) == Val(st'.regs, t);
            EndsBlock(RunBytes(CodeAll(ops + [Branch(s, t, o)]), m), taken, o, st')
  {
    ProgramCorrect(ops, m, st);
    BranchWellFormed(Branch(s, t, o));
    RunThenCode(ops, Branch(s, t, o), m);
    var m1 := RunBytes(CodeAll(ops), m).m;
    BranchOutcome(s, t, o, m1);
    BranchOnMatch(s, t, m1, IrRun(ops, st).value);
    KeepsMatch(m1, RunBytes(Code(Branch(s, t, o)), m1).m, IrRun(ops, st).value);
  }

  /** The same for JIT_NBRANCH and different values. */
  lemma BlockWithNBranch(ops: seq<Op>, s: IrReg, t: IrReg, o: int, m: Machine, st: IrState)
    requires AllSound(ops) && Match(m, st) && IrRun(ops, st).Some? && RunWorkable(ops, st)
    requires Comparable(IrRun(ops, st).value, s, t)
    ensures var st' := IrRun(ops, st).value;
            var taken := (o > 0 || o < -1) && Val(st'.regs, s) != Val(st'.regs, t);
            EndsBlock(RunBytes(CodeAll(ops + [NBranch(s, t, o)]), m), taken, o, st')
  {
    ProgramCorrect(ops, m, st);
    BranchWellFormed(NBranch(s, t, o));
    RunThenCode(ops, NBranch(s, t, o), m);
    var m1 := RunBytes(CodeAll(ops), m).m;
    NBranchOutcome(s, t, o, m1);
    BranchOnMatch(s, t, m1, IrRun(ops, st).value);
    KeepsMatch(m1, RunBytes(Code(NBranch(s, t, o)), m1).m, IrRun(ops, st).value);
  }
}

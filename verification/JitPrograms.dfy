/** Whole straight-line programs: the bytes of a list of sound operations, decoded and executed, end in
    the state the register language gives, and keep the stack and every register they do not name. */
module JitPrograms {
  import opened Bits
  import opened X64Encoding
  import opened X64Machine
  import opened JitIr
  import opened JitSimulation
  import opened JitExactness
  import opened JitTables

  predicate AllSound(ops: seq<Op>) {
    forall k :: 0 <= k < |ops| ==> IsData(ops[k]) && Sound(ops[k])
  }

  /** Run operations in order; None as soon as one has no meaning. */
  function IrRun(ops: seq<Op>, st: IrState): Option<IrState>
    requires AllSound(ops)
  {
    if ops == [] then Some(st)
    else
      match IrStep(ops[0], st)
      case None => None
      case Some(st') => IrRun(ops[1..], st')
  }

  /** Every division reached has a dividend the code can handle. */
  predicate RunWorkable(ops: seq<Op>, st: IrState)
    requires AllSound(ops)
  {
    ops == [] ||
    (Workable(ops[0], st) && (IrStep(ops[0], st).Some? ==> RunWorkable(ops[1..], IrStep(ops[0], st).value)))
  }

  lemma RunBytesConcat(op: Op, ops: seq<Op>, m: Machine)
    requires AllWellFormed(Lower(op)) && AllWellFormed(LowerAll(ops))
    ensures var o := RunBytes(Code(op), m);
            RunBytes(Code(op) + CodeAll(ops), m) == if o.Next? then RunBytes(CodeAll(ops), o.m) else o
  {
    var a, b := Lower(op), LowerAll(ops);
    CodeAllIsEncoding(ops);
    EncodeAllConcat(a, b);
    RunBytesIsRun(a, m);
    RunBytesIsRun(a + b, m);
    RunConcat(a, b, m);
    if Run(a, m).Next? {
      RunBytesIsRun(b, Run(a, m).m);
    }
  }

  lemma {:induction false} ProgramWellFormed(ops: seq<Op>)
    requires AllSound(ops)
    ensures AllWellFormed(LowerAll(ops))
  {
    if ops == [] {
    } else {
      SoundIsWellFormed(ops[0]);
      ProgramWellFormed(ops[1..]);
    }
  }

  /** The bytes of a sound program decode to the instructions of its operations, in order. */
  lemma ProgramDecodes(ops: seq<Op>)
    requires AllSound(ops)
    ensures DecodeAll(CodeAll(ops)) == Some(LowerAll(ops))
  {
    ProgramWellFormed(ops);
    CodeAllIsEncoding(ops);
    RoundTrip(LowerAll(ops));
  }

  lemma FirstThenRest(ops: seq<Op>, m: Machine)
    requires AllSound(ops) && ops != []
    ensures var o := RunBytes(Code(ops[0]), m);
            RunBytes(CodeAll(ops), m) == if o.Next? then RunBytes(CodeAll(ops[1..]), o.m) else o
  {
    SoundIsWellFormed(ops[0]);
    ProgramWellFormed(ops[1..]);
    RunBytesConcat(ops[0], ops[1..], m);
  }

  /** Meaning preservation for programs with arithmetic, shifts, comparisons, divisions and loads. */
  lemma {:induction false} ProgramCorrect(ops: seq<Op>, m: Machine, st: IrState)
    requires AllSound(ops) && Match(m, st) && IrRun(ops, st).Some? && RunWorkable(ops, st)
    ensures var o := RunBytes(CodeAll(ops), m);
            o.Next? && Match(o.m, IrRun(ops, st).value)
  {
    if ops == [] {
    } else {
      SoundIsCorrectAt(ops[0], m, st);
      FirstThenRest(ops, m);
      ProgramCorrect(ops[1..], RunBytes(Code(ops[0]), m).m, IrStep(ops[0], st).value);
    }
  }

  /** A program that falls through is followed by the code of the next call. */
  lemma RunThenCode(ops: seq<Op>, op: Op, m: Machine)
    requires AllSound(ops) && AllWellFormed(Lower(op))
    ensures var o := RunBytes(CodeAll(ops), m);
            RunBytes(CodeAll(ops + [op]), m) == if o.Next? then RunBytes(Code(op), o.m) else o
  {
    var a, b := LowerAll(ops), Lower(op);
    CodeAllSnoc(ops, op);
    CodeAllIsEncoding(ops);
    ProgramWellFormed(ops);
    EncodeAllConcat(a, b);
    RunBytesIsRun(a, m);
    RunBytesIsRun(a + b, m);
    RunConcat(a, b, m);
    if Run(a, m).Next? {
      RunBytesIsRun(b, Run(a, m).m);
    }
  }

  /** Executing the buffer a run of calls has filled, from the info1 entry of any call, carries out that
      call and the ones after it. */
  lemma RunFromEntry(ops: seq<Op>, k: nat, m: Machine, st: IrState)
    requires k < |ops| && AllSound(ops[k..]) && Match(m, st)
    requires IrRun(ops[k..], st).Some? && RunWorkable(ops[k..], st)
    ensures var t := EmitAll(ops);
            && |t.starts| == |ops| && t.starts[k] <= |t.code|
            && var o := RunBytes(t.code[t.starts[k]..], m);
               o.Next? && Match(o.m, IrRun(ops[k..], st).value)
  {
    CodeFromStart(ops, k);
    ProgramCorrect(ops[k..], m, st);
  }

  // ----- Register programs -----

  /** An operation that only computes on registers and does not name RAX. */
  predicate RegisterOnly(op: Op)
    requires IsData(op)
  {
    match op
    case Alu(_, d, s, t) => d != RAX && s != RAX && t != RAX
    case Shift(_, d, s, t) => d != RAX && s != RAX && t != RAX
    case Less(d, s, t) => d != RAX && s != RAX && t != RAX
    case AddImm(d, s, _) => d != RAX && s != RAX
    case ShiftImm(_, d, s, _) => d != RAX && s != RAX
    case _ => false
  }

  predicate AllRegisterOnly(ops: seq<Op>) {
    AllSound(ops) && forall k :: 0 <= k < |ops| ==> RegisterOnly(ops[k])
  }

  /** Three-operand arithmetic modulo 2^64. */
  function Arithmetic(k: BinOp, x: int, y: int): Word
    requires 0 <= x < TWO_64 && 0 <= y < TWO_64
  {
    match k
    case Add => (x + y) % 0x1_0000_0000_0000_0000
    case Sub => (x - y) % 0x1_0000_0000_0000_0000
    case Mul => (x * y) % 0x1_0000_0000_0000_0000
    case And => BitwiseWord(BitOp.And, x, y)
    case Or => BitwiseWord(BitOp.Or, x, y)
    case Xor => BitwiseWord(BitOp.Xor, x, y)
  }

  /** x times or over 2^count, for the signed x rounding down. */
  function ShiftArithmetic(left: bool, x: Word, count: nat): Word {
    if left then (x * Pow2(count)) % 0x1_0000_0000_0000_0000
    else (Signed(x) / Pow2(count)) % 0x1_0000_0000_0000_0000
  }

  /** The plain interpreter on a register file. */
  function Interpret(op: Op, regs: Regs): Regs
    requires IsData(op) && RegisterOnly(op)
  {
    if op.d == R0 then regs
    else
      match op
      case Alu(k, d, s, t) => regs[d := Arithmetic(k, Val(regs, s), Val(regs, t))]
      case Shift(left, d, s, t) => regs[d := ShiftArithmetic(left, Val(regs, s), Val(regs, t) % 64)]
      case Less(d, s, t) => regs[d := if Signed(Val(regs, s)) < Signed(Val(regs, t)) then 1 else 0]
      case AddImm(d, s, i) => regs[d := (Val(regs, s) + i) % 0x1_0000_0000_0000_0000]
      case ShiftImm(left, d, s, i) => regs[d := ShiftArithmetic(left, Val(regs, s), i % 64)]
  }

  function InterpretAll(ops: seq<Op>, regs: Regs): Regs
    requires AllRegisterOnly(ops)
  {
    if ops == [] then regs else InterpretAll(ops[1..], Interpret(ops[0], regs))
  }

  lemma InterpretIsStep(op: Op, st: IrState)
    requires IsData(op) && RegisterOnly(op)
    ensures IrStep(op, st).Some? && IrStep(op, st).value.regs == Interpret(op, st.regs) && Workable(op, st)
  {
  }

  lemma {:induction false} RegisterRun(ops: seq<Op>, st: IrState)
    requires AllRegisterOnly(ops)
    ensures RunWorkable(ops, st) && IrRun(ops, st).Some?
    ensures IrRun(ops, st).value.regs == InterpretAll(ops, st.regs)
  {
    if ops == [] {
    } else {
      InterpretIsStep(ops[0], st);
      RegisterRun(ops[1..], IrStep(ops[0], st).value);
    }
  }

  /** From any machine state, a sound register program ends with every register except RAX holding what
      the plain interpreter computes from the same registers. */
  lemma RegisterProgramMeaning(ops: seq<Op>, m: Machine)
    requires AllRegisterOnly(ops)
    ensures var o := RunBytes(CodeAll(ops), m);
            o.Next? && forall r: Reg :: r != RAX ==> o.m.regs[r] == InterpretAll(ops, m.regs)[r]
  {
    var st := IrState(m.regs, m.mem, false, {});
    RegisterRun(ops, st);
    ProgramCorrect(ops, m, st);
  }

  // ----- The frame -----

  /** The operation writes register r. A store has a base in the place of a destination. */
  predicate Targets(op: Op, r: Reg)
    requires IsData(op)
  {
    op.d == r && !op.Store?
  }

  predicate Names(ops: seq<Op>, r: Reg)
    requires AllSound(ops)
  {
    exists k :: 0 <= k < |ops| && Targets(ops[k], r)
  }

  /** m' keeps from m the registers op does not write, RAX aside, and, unless op is a store, all memory
      outside the eight bytes below the stack pointer. */
  ghost predicate Keeps(m: Machine, m': Machine, op: Op)
    requires IsData(op)
  {
    && (forall r: Reg :: r != RAX && !Targets(op, r) ==> m'.regs[r] == m.regs[r])
    && (!op.Store? ==> SameAbove(m, m'))
  }

  /** Every byte outside the eight below the stack pointer is as before. */
  ghost predicate SameAbove(m: Machine, m': Machine) {
    forall a: Word :: !InWindow(a, Offset(m.regs[RSP], -8), 8) ==> At(m'.mem, a) == At(m.mem, a)
  }

  /** DIV keeps them too, unless it faults: on a zero divisor or a quotient that does not fit. */
  lemma DivKeeps(d: Reg, s: IrReg, t: IrReg, m: Machine)
    requires Sound(Op.Div(d, s, t))
    ensures var o := RunBytes(Code(Op.Div(d, s, t)), m); o.Stuck? || (o.Next? && Keeps(m, o.m, Op.Div(d, s, t)))
  {
    if s == R0 || t == R0 {
      DivWithR0(d, s, t, m);
    } else {
      SoundIsWellFormed(Op.Div(d, s, t));
      RunBytesIsRun(Lower(Op.Div(d, s, t)), m);
      if m.regs[t] == 0 {
        DivPrepares(d, s, t, m);
        DivFinishes(d, t, DivReady(s, m));
        DivReadyRegs(s, m);
      } else {
        DivEffect(d, s, t, m);
        forall a: Word | !InWindow(a, Offset(m.regs[RSP], -8), 8)
          ensures At(PushValue(m, m.regs[RDX]).mem, a) == At(m.mem, a)
        {
          PushFrame(m, m.regs[RDX], a);
        }
      }
    }
  }

  /** The language changes no register but the destination, no memory except in a store, and uses no stack
      slot but the first. */
  lemma StepKeeps(op: Op, st: IrState)
    requires IsData(op) && !op.Div? && st.raxLive && st.frames == {}
    ensures IrStep(op, st).Some?
    ensures var st' := IrStep(op, st).value;
            && (forall r: Reg :: r != RAX && !Targets(op, r) ==> st'.regs[r] == st.regs[r])
            && st'.frames <= {Offset(st.regs[RSP], -8)}
            && (!op.Store? ==> st'.mem == st.mem)
  {
  }

  lemma OpKeeps(op: Op, m: Machine)
    requires IsData(op) && Sound(op)
    ensures var o := RunBytes(Code(op), m); if o.Next? then Keeps(m, o.m, op) else o.Stuck? && op.Div?
  {
    if op.Div? && op.d != R0 {
      DivKeeps(op.d, op.s, op.t, m);
    } else if !op.Div? {
      var st := IrState(m.regs, m.mem, true, {});
      assert Match(m, st);
      StepKeeps(op, st);
      SoundIsCorrectAt(op, m, st);
      var st', m' := IrStep(op, st).value, RunBytes(Code(op), m).m;
      if !op.Store? {
        forall a: Word | !InWindow(a, Offset(m.regs[RSP], -8), 8) ensures At(m'.mem, a) == At(m.mem, a) {
          assert !Scratched(st'.frames, a);
        }
      }
    }
  }

  predicate HasDivision(ops: seq<Op>)
    requires AllSound(ops)
  {
    exists k :: 0 <= k < |ops| && ops[k].Div?
  }

  predicate HasStore(ops: seq<Op>)
    requires AllSound(ops)
  {
    exists k :: 0 <= k < |ops| && ops[k].Store?
  }

  /** Stack balance and frame over a run, whatever the divisions compute: unless a division faults, which
      is the only way the run can stop, the stack pointer and every register no operation names (RAX aside)
      are as before, and without stores so is every byte at or above the stack pointer. */
  lemma {:induction false} ProgramFrame(ops: seq<Op>, m: Machine)
    requires AllSound(ops) && !Names(ops, RSP)
    ensures var o := RunBytes(CodeAll(ops), m);
            if o.Next? then
              && o.m.regs[RSP] == m.regs[RSP]
              && (forall r: Reg :: r != RAX && !Names(ops, r) ==> o.m.regs[r] == m.regs[r])
              && (!HasStore(ops) ==> SameAbove(m, o.m))
            else o.Stuck? && HasDivision(ops)
  {
    if ops == [] {
    } else {
      var rest := ops[1..];
      FirstIsPart(ops);
      RestIsPart(ops);
      OpKeeps(ops[0], m);
      FirstThenRest(ops, m);
      var o1 := RunBytes(Code(ops[0]), m);
      if o1.Next? {
        ProgramFrame(rest, o1.m);
      }
    }
  }

  lemma FirstIsPart(ops: seq<Op>)
    requires AllSound(ops) && ops != []
    ensures forall r: Reg :: Targets(ops[0], r) ==> Names(ops, r)
    ensures ops[0].Div? ==> HasDivision(ops)
    ensures ops[0].Store? ==> HasStore(ops)
  {
  }

  lemma RestIsPart(ops: seq<Op>)
    requires AllSound(ops) && ops != []
    ensures forall r: Reg :: Names(ops[1..], r) ==> Names(ops, r)
    ensures HasDivision(ops[1..]) ==> HasDivision(ops)
    ensures HasStore(ops[1..]) ==> HasStore(ops)
  {
    var rest := ops[1..];
    forall r: Reg | Names(rest, r) ensures Names(ops, r) {
      var k :| 0 <= k < |rest| && Targets(rest[k], r);
      assert Targets(ops[k + 1], r);
    }
    if HasDivision(rest) {
      var k :| 0 <= k < |rest| && rest[k].Div?;
      assert ops[k + 1].Div?;
    }
    if HasStore(rest) {
      var k :| 0 <= k < |rest| && rest[k].Store?;
      assert ops[k + 1].Store?;
    }
  }
}

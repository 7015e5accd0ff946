/** How to show that code is wrong: a machine, the language state it holds, and a register or a byte in
    which they part. */
module JitWitnesses {
  import opened Bits
  import opened X64Encoding
  import opened X64Machine
  import opened JitIr

  function Uniform(v: Word): Regs {
    seq(16, _ => v)
  }

  function MachineOf(regs: Regs): Machine {
    Machine(regs, None, map[])
  }

  /** The language state that a machine with these registers and empty memory holds. */
  function StateOf(regs: Regs): IrState {
    IrState(regs, map[], true, {})
  }

  /** Code that stops, or that leaves another value in a defined register, is incorrect. */
  lemma WrongRegister(op: Op, regs: Regs, r: Reg)
    requires IsData(op) && AllWellFormed(Lower(op))
    requires IrStep(op, StateOf(regs)).Some? && Workable(op, StateOf(regs))
    requires r == RAX ==> IrStep(op, StateOf(regs)).value.raxLive
    requires var o := Run(Lower(op), MachineOf(regs));
             o.Next? ==> o.m.regs[r] != IrStep(op, StateOf(regs)).value.regs[r]
    ensures !Correct(op)
  {
    var m, st := MachineOf(regs), StateOf(regs);
    assert Match(m, st);
    RunBytesIsRun(Lower(op), m);
    assert !CorrectAt(op, m, st);
  }

  /** An operation that writes a register leaves it defined. */
  lemma DestinationIsDefined(op: Op, st: IrState)
    requires IsData(op) && !op.Store? && op.d == RAX && IrStep(op, st).Some?
    ensures IrStep(op, st).value.raxLive
  {
  }

  /** Code that stops, or that leaves another value in the destination, is incorrect. */
  lemma WrongValue(op: Op, regs: Regs)
    requires IsData(op) && !op.Store? && op.d != R0 && AllWellFormed(Lower(op))
    requires IrStep(op, StateOf(regs)).Some? && Workable(op, StateOf(regs))
    requires var o := Run(Lower(op), MachineOf(regs));
             o.Next? ==> o.m.regs[op.d] != IrStep(op, StateOf(regs)).value.regs[op.d]
    ensures !Correct(op)
  {
    if op.d == RAX {
      DestinationIsDefined(op, StateOf(regs));
    }
    WrongRegister(op, regs, op.d);
  }

  /** Code of a store that leaves another byte in memory is incorrect. */
  lemma WrongByte(op: Op, regs: Regs, mem: Mem, a: Word)
    requires op.Store? && IsData(op) && AllWellFormed(Lower(op))
    requires var st' := IrStep(op, IrState(regs, mem, true, {}));
             var o := Run(Lower(op), Machine(regs, None, mem));
             st'.Some? && o.Next? && At(o.m.mem, a) != At(st'.value.mem, a)
    ensures !Correct(op)
  {
    var m, st := Machine(regs, None, mem), IrState(regs, mem, true, {});
    assert Match(m, st);
    RunBytesIsRun(Lower(op), m);
    assert IrStep(op, st).value.frames == {};
    assert !Scratched({}, a);
    assert !CorrectAt(op, m, st);
  }

  /** Code that cannot be decoded to its end is incorrect. */
  lemma StuckCode(op: Op, regs: Regs)
    requires IsData(op) && IrStep(op, StateOf(regs)).Some? && Workable(op, StateOf(regs))
    ensures RunBytes(Code(op), MachineOf(regs)) == Stuck ==> !Correct(op)
  {
    var m, st := MachineOf(regs), StateOf(regs);
    assert Match(m, st);
    if RunBytes(Code(op), m) == Stuck {
      assert !CorrectAt(op, m, st);
    }
  }
}

/** What a run of emitter calls leaves in the code buffer and the two side tables. */
module JitTables {
  import opened Bits
  import opened X64Encoding
  import opened X64Machine
  import opened JitIr
  import opened CodeTables

  /** The calls that end in JIT__INFO2. */
  predicate HasDisp(op: Op) {
    match op
    case JumpTo(o) => o != R0
    case Branch(s, t, o) => if s == t then o != R0 else IsTarget(o)
    case NBranch(s, t, o) => IsTarget(o) && s != t
    case Call(o) => IsTarget(o)
    case _ => false
  }

  function EntryOf(op: Op): Entry {
    Entry(Code(op), HasDisp(op))
  }

  function Entries(ops: seq<Op>): seq<Entry> {
    Map(EntryOf, ops)
  }

  /** One emitter call on the tables. */
  function Emit(op: Op, t: Tables): Tables {
    Append(EntryOf(op), t)
  }

  /** A run of emitter calls from empty tables. */
  function EmitAll(ops: seq<Op>): Tables {
    AppendAll(Entries(ops))
  }

  lemma EmitAllSnoc(ops: seq<Op>, op: Op)
    ensures EmitAll(ops + [op]) == Emit(op, EmitAll(ops))
  {
    var es := Entries(ops + [op]);
    assert es[..|ops|] == Entries(ops) && es[|ops|] == EntryOf(op);
  }

  // ----- info1 -----

  lemma {:induction false} JoinIsCode(ops: seq<Op>)
    ensures Join(Entries(ops)) == CodeAll(ops)
  {
    if ops == [] {
    } else {
      JoinIsCode(ops[1..]);
      var es := Entries(ops);
      assert es[0].bytes == Code(ops[0]) && es[1..] == Entries(ops[1..]);
    }
  }

  lemma CodeAllSnoc(ops: seq<Op>, op: Op)
    ensures CodeAll(ops + [op]) == CodeAll(ops) + Code(op)
  {
    JoinIsCode(ops);
    JoinIsCode(ops + [op]);
    MapConcat(EntryOf, ops, [op]);
    assert Map(EntryOf, [op]) == [EntryOf(op)];
    JoinSnoc(Entries(ops), EntryOf(op));
  }

  /** info1 has one entry per call; entry k is the total length of the calls before k, and call k's code
      is what lies between its entry and the next one or the end of the buffer. */
  lemma StartsCutTheCode(ops: seq<Op>, k: nat)
    requires k < |ops|
    ensures var t := EmitAll(ops);
            && t.code == CodeAll(ops) && |t.starts| == |ops|
            && t.starts[k] == |CodeAll(ops[..k])|
            && t.starts[k] <= EndOf(t, k) <= |t.code|
            && t.code[t.starts[k]..EndOf(t, k)] == Code(ops[k])
  {
    PartitionAt(Entries(ops), k);
    JoinIsCode(ops);
    JoinIsCode(ops[..k]);
    MapPrefix(EntryOf, ops, k);
  }

  /** From info1 entry k to the end, the buffer holds the code of call k and the calls after it. */
  lemma CodeFromStart(ops: seq<Op>, k: nat)
    requires k < |ops|
    ensures var t := EmitAll(ops);
            |t.starts| == |ops| && t.starts[k] <= |t.code| && t.code[t.starts[k]..] == CodeAll(ops[k..])
  {
    CodeFrom(Entries(ops), k);
    MapPrefix(EntryOf, ops, k);
    JoinIsCode(ops[k..]);
  }

  /** Later calls leave every earlier byte and table entry as it was. */
  lemma EmittedCodeIsStable(ops: seq<Op>, more: seq<Op>)
    ensures var t, t' := EmitAll(ops), EmitAll(ops + more);
            t.code <= t'.code && t.starts <= t'.starts && t.disps <= t'.disps
  {
    MapConcat(EntryOf, ops, more);
    EarlierUnchanged(Entries(ops), Entries(more));
  }

  // ----- Every start begins decodable code -----

  /** No memory operand of the call needs a SIB byte. */
  predicate BaseOk(op: Op) {
    match op
    case Load(_, d, s, _) => d == R0 || s == R0 || s == RSP || s % 8 != 4
    case Store(_, d, _, s) => d == R0 || s == R0 || d % 8 != 4
    case StoreF(d, _, s) => d == R0 || s == R0 || d == RSP || d % 8 != 4
    case LoadF4(d, s, _) => d == R0 || s == R0 || s == RSP || s % 8 != 4
    case StoreF4(d, _, _) => d == R0 || d == RSP || d % 8 != 4
    case _ => true
  }

  lemma HwRegLowBits(r: int)
    ensures HwReg(r) % 8 == r % 8
  {
  }

  lemma MemoryOpWellFormed(op: Op)
    requires IsMemoryOp(op)
    ensures AllWellFormed(Lower(op)) <==> BaseOk(op)
  {
    HwRegLowBits(op.d);
    HwRegLowBits(op.s);
    var code := Lower(op);
    if code != [] {
      assert WellFormed(code[|code| - 1]) <==> BaseOk(op);
    }
  }

  predicate IsMemoryOp(op: Op) {
    op.Load? || op.Store? || op.StoreF? || op.LoadF4? || op.StoreF4?
  }

  predicate IsIntegerOp(op: Op) {
    op.Alu? || op.Div? || op.Shift? || op.Less? || op.AddImm? || op.ShiftImm?
  }

  lemma IntegerOpWellFormed(op: Op)
    requires IsIntegerOp(op)
    ensures AllWellFormed(Lower(op))
  {
    match op
    case Alu(k, d, s, t) => AluWellFormed(k, d, s, t);
    case Div(d, s, t) => DivWellFormed(d, s, t);
    case Shift(left, d, s, t) => ShiftWellFormed(left, d, s, t);
    case Less(d, s, t) => LessWellFormed(d, s, t);
    case AddImm(d, s, i) => AddImmWellFormed(d, s, i);
    case ShiftImm(left, d, s, i) => ShiftImmWellFormed(left, d, s, i);
  }

  lemma DivWellFormed(d: int, s: int, t: int)
    ensures AllWellFormed(LowerDiv(d, s, t))
  {
  }

  lemma AddImmWellFormed(d: int, s: int, i: int)
    ensures AllWellFormed(LowerAddImm(d, s, i))
  {
  }

  lemma ShiftImmWellFormed(left: bool, d: int, s: int, i: int)
    ensures AllWellFormed(LowerShiftImm(left, d, s, i))
  {
  }

  lemma AluWellFormed(k: BinOp, d: int, s: int, t: int)
    ensures AllWellFormed(LowerAlu(k, d, s, t))
  {
    assert WellFormed(AluInstr(k, d, t));
  }

  lemma ShiftWellFormed(left: bool, d: int, s: int, t: int)
    ensures AllWellFormed(LowerShift(left, d, s, t))
  {
  }

  lemma LessWellFormed(d: int, s: int, t: int)
    ensures AllWellFormed(LowerLess(d, s, t))
  {
    assert WellFormed(CompareInstr(s, t));
  }

  lemma OtherOpWellFormed(op: Op)
    requires !IsMemoryOp(op) && !IsIntegerOp(op)
    ensures AllWellFormed(Lower(op))
  {
  }

  /** The bytes info1 assigns to a call decode to that call's instructions exactly when its memory
      operand needs no SIB byte. */
  lemma SliceDecodes(ops: seq<Op>, k: nat)
    requires k < |ops|
    ensures var t := EmitAll(ops);
            && |t.starts| == |ops| && t.starts[k] <= EndOf(t, k) <= |t.code|
            && (DecodeAll(t.code[t.starts[k]..EndOf(t, k)]) == Some(Lower(ops[k])) <==> BaseOk(ops[k]))
  {
    StartsCutTheCode(ops, k);
    RoundTrip(Lower(ops[k]));
    var op := ops[k];
    if IsMemoryOp(op) {
      MemoryOpWellFormed(op);
    } else if IsIntegerOp(op) {
      IntegerOpWellFormed(op);
    } else {
      OtherOpWellFormed(op);
    }
  }

  // ----- info2 -----

  /** An instruction with a jump displacement. */
  predicate IsRelative(i: Instr) {
    i.Rel32? || i.Jcc?
  }

  /** The call wrote a JMP, CALL or Jcc. */
  ghost predicate WritesRelative(op: Op) {
    exists k :: 0 <= k < |Lower(op)| && IsRelative(Lower(op)[k])
  }

  /** The calls that record a displacement are those that wrote a JMP, CALL or Jcc; it comes last and
      carries the target the call was given. */
  lemma DispIffRelative(op: Op)
    ensures HasDisp(op) <==> WritesRelative(op)
    ensures HasDisp(op) ==> Lower(op) != [] && IsRelative(Lower(op)[|Lower(op)| - 1])
                            && Lower(op)[|Lower(op)| - 1].imm == Wrap32(op.o)
  {
    var code := Lower(op);
    if HasDisp(op) {
      DispComesLast(op);
      assert IsRelative(code[|code| - 1]);
    } else {
      NoRelative(op);
    }
  }

  lemma DispComesLast(op: Op)
    requires HasDisp(op)
    ensures var code := Lower(op);
            code != [] && IsRelative(code[|code| - 1]) && code[|code| - 1].imm == Wrap32(op.o)
  {
  }

  lemma NoRelative(op: Op)
    requires !HasDisp(op)
    ensures forall k :: 0 <= k < |Lower(op)| ==> !IsRelative(Lower(op)[k])
  {
  }

  lemma EntryRecords(ops: seq<Op>, k: nat)
    requires k < |ops|
    ensures Entries(ops)[k].disp <==> WritesRelative(ops[k])
  {
    DispIffRelative(ops[k]);
  }

  /** A branch on one register is a jump; any other is the comparison and the conditional jump. */
  lemma BranchCode(s: int, t: int, o: int)
    ensures s == t ==> Lower(Branch(s, t, o)) == Lower(JumpTo(o)) && HasDisp(Branch(s, t, o)) == HasDisp(JumpTo(o))
    ensures s != t ==> Lower(Branch(s, t, o)) == if IsTarget(o) then LowerBranch(0x85, s, t, o) else []
    ensures s != t ==> HasDisp(Branch(s, t, o)) == IsTarget(o)
  {
  }

  /** In a run of fewer than 2^16 calls, info2 is strictly increasing and holds exactly the 1-based
      indices of the calls that wrote a JMP, CALL or Jcc. */
  lemma DispsAreTheRelativeCalls(ops: seq<Op>)
    requires |ops| < TWO_16
    ensures var disps := EmitAll(ops).disps;
            && Increasing(disps)
            && forall x: int :: x in disps <==> 1 <= x <= |ops| && WritesRelative(ops[x - 1])
  {
    assert Increasing(EmitAll(ops).disps) by { DispsAreTheIndices(Entries(ops)); }
    forall x: int ensures x in EmitAll(ops).disps <==> 1 <= x <= |ops| && WritesRelative(ops[x - 1]) {
      RelativeMember(ops, x);
    }
  }

  lemma RelativeMember(ops: seq<Op>, x: int)
    requires |ops| < TWO_16
    ensures x in EmitAll(ops).disps <==> 1 <= x <= |ops| && WritesRelative(ops[x - 1])
  {
    IndexMember(Entries(ops), x);
    if 1 <= x <= |ops| {
      EntryRecords(ops, x - 1);
    }
  }

  /** Over runs of any length the 16-bit counter wraps: info2 names the right calls exactly when no call
      from number 2^16 on wrote a displacement. */
  lemma DispsExactOverRuns(ops: seq<Op>)
    ensures var disps, d := EmitAll(ops).disps, DispIndices(Entries(ops));
            Shifted(disps, d) <==> (forall k :: 0 <= k < |ops| && HasDisp(ops[k]) ==> k + 1 < TWO_16)
  {
    var es := Entries(ops);
    DispsExact(es);
    assert |es| == |ops| && forall k :: 0 <= k < |ops| ==> es[k].disp == HasDisp(ops[k]);
  }

  // ----- The displacement bytes -----

  lemma EndsWithImm(ins: seq<Instr>, i: Instr)
    requires IsRelative(i)
    ensures var b := EncodeAll(ins + [i]); |b| >= 4 && b[|b| - 4..] == ToBytes(i.imm, 4)
  {
    EncodeAllConcat(ins, [i]);
    EncodeAllCons(i, []);
    assert [i] + [] == [i];
    assert Encode(i)[|Encode(i)| - 4..] == ToBytes(i.imm, 4);
  }

  lemma CodeEndsWithTarget(op: Op)
    requires HasDisp(op)
    ensures |Code(op)| >= 4 && Code(op)[|Code(op)| - 4..] == ToBytes(Wrap32(op.o), 4)
  {
    DispComesLast(op);
    LastImm(Lower(op));
  }

  lemma LastImm(code: seq<Instr>)
    requires code != [] && IsRelative(code[|code| - 1])
    ensures var b := EncodeAll(code); |b| >= 4 && b[|b| - 4..] == ToBytes(code[|code| - 1].imm, 4)
  {
    var n := |code| - 1;
    assert code == code[..n] + [code[n]];
    EndsWithImm(code[..n], code[n]);
  }

  /** The four bytes that end where the code of a recorded call ends are its target, little endian. */
  lemma DisplacementBytes(ops: seq<Op>, k: nat)
    requires k < |ops| && HasDisp(ops[k])
    ensures var t := EmitAll(ops);
            && |t.starts| == |ops| && 4 <= EndOf(t, k) <= |t.code|
            && t.code[EndOf(t, k) - 4..EndOf(t, k)] == ToBytes(Wrap32(ops[k].o), 4)
  {
    StartsCutTheCode(ops, k);
    CodeEndsWithTarget(ops[k]);
    var t := EmitAll(ops);
    SliceEnd(t.code, t.starts[k], EndOf(t, k), Code(ops[k]));
  }

  lemma SliceEnd(code: seq<Byte>, from: nat, to: nat, part: seq<Byte>)
    requires from <= to <= |code| && code[from..to] == part && |part| >= 4
    ensures to >= 4 && code[to - 4..to] == part[|part| - 4..]
  {
  }
}

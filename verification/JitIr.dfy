/** The three-operand register language of the JIT: its calls, what each data operation means, and the
    instructions each call writes. */
module JitIr {
  import opened Bits
  import opened X64Encoding
  import opened X64Machine

  /** The register that reads as zero and ignores writes. */
  const R0: int := -1

  datatype FloatOp = AddF | SubF | MulF | DivF | MinF | MaxF

  /** One constructor per emitter, or per family of emitters that differ only in an opcode. */
  datatype Op =
    | Alu(k: BinOp, d: int, s: int, t: int)
    | Div(d: int, s: int, t: int)
    | Shift(left: bool, d: int, s: int, t: int)
    | Less(d: int, s: int, t: int)
    | Load(wide: bool, d: int, s: int, o: int)
    | Store(wide: bool, d: int, o: int, s: int)
    | AddImm(d: int, s: int, i: int)
    | ShiftImm(left: bool, d: int, s: int, i: int)
    | JumpTo(o: int)
    | Branch(s: int, t: int, o: int)
    | NBranch(s: int, t: int, o: int)
    | Call(o: int)
    | CallEx(s: int)
    | Return
    | StoreF(d: int, o: int, s: int)
    | IntToF(d: int, s: int)
    | FToInt(d: int, s: int)
    | ArithF(f: FloatOp, d: int, s: int, t: int)
    | LessF(d: int, s: int, t: int)
    | LoadF4(d: int, s: int, o: int)
    | StoreF4(d: int, o: int, s: int)
    | ArithF4(f: FloatOp, d: int, s: int, t: int)

  // ----- Instruction macros -----

  /** The register a macro encodes: three low bits in ModR/M and `r > 7` in REX. On 0..15 this is r. */
  function HwReg(r: int): Reg {
    (if r > 7 then 8 else 0) + r % 8
  }

  lemma HwRegOfReg(r: Reg)
    ensures HwReg(r) == r
  {
  }

  function Mov(d: int, s: int): Instr { RR(0x89, HwReg(d), HwReg(s), true) }

  function MovImm(d: int, im: int): Instr { RI32(0xC7, 3, HwReg(d), 0, Wrap32(im), true) }

  function AluInstr(k: BinOp, d: int, t: int): Instr {
    match k
    case Add => RR(0x01, HwReg(d), HwReg(t), true)
    case Sub => RR(0x29, HwReg(d), HwReg(t), true)
    case And => RR(0x21, HwReg(d), HwReg(t), true)
    case Or => RR(0x09, HwReg(d), HwReg(t), true)
    case Xor => RR(0x31, HwReg(d), HwReg(t), true)
    case Mul => RR0(0xAF, HwReg(t), HwReg(d), true)
  }

  function ShiftInstr(left: bool, d: int): Instr { RR(0xD3, HwReg(d), if left then 4 else 7, true) }

  function Idiv(t: int): Instr { RR(0xF7, HwReg(t), 7, true) }

  function Cmp(s: int, t: int): Instr { RR(0x39, HwReg(s), HwReg(t), true) }

  function CmpZero(s: int): Instr { RI8(0x83, HwReg(s), 7, 0) }

  function SetL(): Instr { Op0(0x9C, 0, 0) }

  function SetE(): Instr { Op0(0x94, 0, 0) }

  function MovZx(): Instr { Op0(0xB6, 0, 0) }

  function LoadInstr(wide: bool, d: int, s: int, o: int): Instr { RI32(0x8B, 2, HwReg(s), HwReg(d), Wrap32(o), wide) }

  function StoreInstr(wide: bool, d: int, off: int, src: int): Instr {
    RI32(0x89, 2, HwReg(d), HwReg(src), Wrap32(off), wide)
  }

  function FloatOpcode(f: FloatOp): Byte {
    match f
    case AddF => 0x58
    case SubF => 0x5C
    case MulF => 0x59
    case DivF => 0x5E
    case MinF => 0x5D
    case MaxF => 0x5F
  }

  function Scalar(opcode: Byte, d: int, s: int, w: bool): Instr { RRF(0xF3, opcode, HwReg(s), HwReg(d), w) }

  function Packed(opcode: Byte, d: int, s: int): Instr { RR0(opcode, HwReg(s), HwReg(d), false) }

  /** The bytes of the register macros, by number. */
  lemma MacroBytes(d: Reg, s: Reg)
    ensures var both, rex := ModRM(d, s, 3), Rex(d, s, true);
            && Encode(Mov(d, s)) == [rex, 0x89, both]
            && Encode(AluInstr(Add, d, s)) == [rex, 0x01, both]
            && Encode(AluInstr(Sub, d, s)) == [rex, 0x29, both]
            && Encode(AluInstr(BinOp.And, d, s)) == [rex, 0x21, both]
            && Encode(AluInstr(BinOp.Or, d, s)) == [rex, 0x09, both]
            && Encode(AluInstr(BinOp.Xor, d, s)) == [rex, 0x31, both]
            && Encode(Cmp(d, s)) == [rex, 0x39, both]
            && Encode(AluInstr(Mul, d, s)) == [Rex(s, d, true), 0x0F, 0xAF, ModRM(s, d, 3)]
            && Encode(Idiv(d)) == [Rex(d, 7, true), 0xF7, ModRM(d, 7, 3)]
            && Encode(ShiftInstr(true, d)) == [Rex(d, 4, true), 0xD3, ModRM(d, 4, 3)]
            && Encode(ShiftInstr(false, d)) == [Rex(d, 7, true), 0xD3, ModRM(d, 7, 3)]
            && Encode(CmpZero(d)) == [Rex(d, 7, true), 0x83, ModRM(d, 7, 3), 0]
            && Encode(SetL()) == [0x0F, 0x9C, 0xC0] && Encode(SetE()) == [0x0F, 0x94, 0xC0]
            && Encode(MovZx()) == [0x0F, 0xB6, 0xC0] && Encode(TestEax) == [0x85, 0xC0]
            && Encode(Cdq) == [0x99] && Encode(Ret) == [0xC3]
            && Encode(Push(d)) == (if d < 8 then [80 + d] else [0x41, 80 + (d - 8)])
            && Encode(Pop(d)) == if d < 8 then [88 + d] else [0x41, 88 + (d - 8)]
  {
    HwRegOfReg(d);
    HwRegOfReg(s);
  }

  /** The bytes of the macros with a 32-bit field. */
  lemma FieldMacroBytes(d: Reg, s: Reg, o: int, wide: bool)
    ensures var field := ToBytes(Wrap32(o), 4);
            && Encode(MovImm(d, o)) == [Rex(d, 0, true), 0xC7, ModRM(d, 0, 3)] + field
            && Encode(LoadInstr(wide, d, s, o)) == [Rex(s, d, wide), 0x8B, ModRM(s, d, 2)] + field
            && Encode(StoreInstr(wide, d, o, s)) == [Rex(d, s, wide), 0x89, ModRM(d, s, 2)] + field
  {
    HwRegOfReg(d);
    HwRegOfReg(s);
  }

  /** The bytes of the jumps and the call. */
  lemma JumpBytes(o: int)
    ensures var field := ToBytes(Wrap32(o), 4);
            && EncodeAll(Lower(Op.Call(o))) == (if o > 0 || o < -1 then [0xE8] + field else [])
            && EncodeAll(LowerJump(o)) == (if o != -1 then [0xE9] + field else [])
            && Encode(Jcc(0x84, Wrap32(o))) == [0x0F, 0x84] + field
            && Encode(Jcc(0x85, Wrap32(o))) == [0x0F, 0x85] + field
  {
    EncodeAllCons(Rel32(0xE8, Wrap32(o)), []);
    EncodeAllCons(Rel32(0xE9, Wrap32(o)), []);
    assert forall i: Instr :: [i] + [] == [i];
  }

  // ----- Lowering -----

  function CopyTo(d: int, s: int): seq<Instr> {
    if s != d then [Mov(d, s)] else []
  }

  function LowerAlu(k: BinOp, d: int, s: int, t: int): seq<Instr> {
    if d == R0 then []
    else if k == BinOp.Mul then
      if s == R0 || t == R0 then [MovImm(d, 0)] else CopyTo(d, s) + [AluInstr(k, d, t)]
    else if s == R0 && t == R0 then [MovImm(d, 0)]
    else if s == t && k != Add && k != Sub then CopyTo(d, s)
    else if s == R0 then CopyTo(d, t)
    else if t == R0 then CopyTo(d, s)
    else CopyTo(d, s) + [AluInstr(k, d, t)]
  }

  function LowerDiv(d: int, s: int, t: int): seq<Instr> {
    if d == R0 then []
    else if s == R0 || t == R0 then [MovImm(d, 0)]
    else [Push(RDX), Mov(RAX, s), Cdq, Idiv(t), Mov(d, RAX), Pop(RDX)]
  }

  function LowerShift(left: bool, d: int, s: int, t: int): seq<Instr> {
    if d == R0 then []
    else if s == R0 then [MovImm(d, 0)]
    else if t == R0 then (if s != d then [MovImm(s, t)] else [])
    else CopyTo(d, s) + [Push(RCX), Mov(RCX, t), ShiftInstr(left, d), Pop(RCX)]
  }

  function CompareInstr(s: int, t: int): Instr {
    if s == R0 then CmpZero(t) else if t == R0 then CmpZero(s) else Cmp(s, t)
  }

  function LowerLess(d: int, s: int, t: int): seq<Instr> {
    if d == R0 then []
    else if s == t then [MovImm(d, 0)]
    else [CompareInstr(s, t), SetL(), MovZx(), Mov(d, RAX)]
  }

  function LowerLoad(wide: bool, d: int, s: int, o: int): seq<Instr> {
    if d == R0 || s == R0 then []
    else if s == RSP then [Mov(RAX, s), LoadInstr(wide, d, RAX, o)]
    else [LoadInstr(wide, d, s, o)]
  }

  /** The macro's offset and source parameters receive the call's s and o the other way round. */
  function LowerStore(wide: bool, d: int, o: int, s: int): seq<Instr> {
    if d == R0 || s == R0 then []
    else if s == RSP then [Mov(RAX, s), StoreInstr(wide, d, RAX, o)]
    else [StoreInstr(wide, d, s, o)]
  }

  function LowerAddImm(d: int, s: int, i: int): seq<Instr> {
    if d != R0 then (if s == R0 then [MovImm(d, i)] else [])
    else CopyTo(d, s) + if i != 0 then [Mov(d, i)] else []
  }

  function LowerShiftImm(left: bool, d: int, s: int, i: int): seq<Instr> {
    if d == R0 then []
    else if s == R0 then [MovImm(d, 0)]
    else if i == R0 then
      (if s != d then [MovImm(d, s)] else []) + [RI8(0xC1, HwReg(d), if left then 4 else 7, i % 256)]
    else []
  }

  predicate IsTarget(o: int) {
    o > 0 || o < -1
  }

  function LowerJump(o: int): seq<Instr> {
    if o != R0 || o < -1 then [Rel32(0xE9, Wrap32(o))] else []
  }

  function LowerBranch(jcc: Byte, s: int, t: int, o: int): seq<Instr> {
    [CompareInstr(s, t), SetE(), MovZx(), TestEax, Jcc(jcc, Wrap32(o))]
  }

  function Lower(op: Op): seq<Instr> {
    match op
    case Alu(k, d, s, t) => LowerAlu(k, d, s, t)
    case Div(d, s, t) => LowerDiv(d, s, t)
    case Shift(left, d, s, t) => LowerShift(left, d, s, t)
    case Less(d, s, t) => LowerLess(d, s, t)
    case Load(wide, d, s, o) => LowerLoad(wide, d, s, o)
    case Store(wide, d, o, s) => LowerStore(wide, d, o, s)
    case AddImm(d, s, i) => LowerAddImm(d, s, i)
    case ShiftImm(left, d, s, i) => LowerShiftImm(left, d, s, i)
    case JumpTo(o) => LowerJump(o)
    case Branch(s, t, o) =>
      if s == t then LowerJump(o) else if IsTarget(o) then LowerBranch(0x85, s, t, o) else []
    case NBranch(s, t, o) => if IsTarget(o) && s != t then LowerBranch(0x84, s, t, o) else []
    case Call(o) => if IsTarget(o) then [Rel32(0xE8, Wrap32(o))] else []
    case CallEx(s) => if s != R0 then [RR(0xFF, HwReg(s), 2, true)] else []
    case Return => [Ret]
    case StoreF(d, o, s) =>
      if d == R0 || s == R0 then []
      else if d == RSP then [Mov(RAX, d), RMF(0x11, RAX, HwReg(s), Wrap32(o))]
      else [RMF(0x11, HwReg(d), HwReg(s), Wrap32(o))]
    case IntToF(d, s) =>
      [RRF(0x66, 0xEF, HwReg(d), HwReg(d), false)] + if s != R0 then [Scalar(0x2A, d, s, true)] else []
    case FToInt(d, s) => if d != R0 then [Scalar(0x2D, d, s, true)] else []
    case ArithF(f, d, s, t) =>
      (if s != d then [Scalar(0x10, d, s, false)] else []) + [Scalar(FloatOpcode(f), d, t, false)]
    case LessF(d, s, t) => [Packed(0x2E, s, t), Op0(0x97, 0, 0), MovZx(), Mov(d, RAX)]
    case LoadF4(d, s, o) =>
      if d == R0 || s == R0 then []
      else if s == RSP then [Mov(RAX, s), RMF4(0x10, RAX, HwReg(d), Wrap32(o))]
      else [RMF4(0x10, HwReg(s), HwReg(d), Wrap32(o))]
    case StoreF4(d, o, s) =>
      if d == R0 then []
      else if d == RSP then [Mov(RAX, d), RMF4(0x11, RAX, HwReg(s), Wrap32(o))]
      else [RMF4(0x11, HwReg(d), HwReg(s), Wrap32(o))]
    case ArithF4(f, d, s, t) =>
      (if s != d then [Packed(0x10, d, s)] else []) + [Packed(FloatOpcode(f), d, t)]
  }

  function LowerAll(ops: seq<Op>): seq<Instr> {
    if ops == [] then [] else Lower(ops[0]) + LowerAll(ops[1..])
  }

  /** The bytes one call appends. */
  function Code(op: Op): seq<Byte> {
    EncodeAll(Lower(op))
  }

  function CodeAll(ops: seq<Op>): seq<Byte> {
    if ops == [] then [] else Code(ops[0]) + CodeAll(ops[1..])
  }

  lemma {:induction false} CodeAllIsEncoding(ops: seq<Op>)
    ensures CodeAll(ops) == EncodeAll(LowerAll(ops))
  {
    if ops == [] {
    } else {
      CodeAllIsEncoding(ops[1..]);
      EncodeAllConcat(Lower(ops[0]), LowerAll(ops[1..]));
    }
  }

  // ----- Meaning -----

  type IrReg = r: int | -1 <= r < 16

  /** Registers and memory as the language sees them. RAX holds a defined value only while raxLive.
      `frames` are the addresses of the eight-byte stack slots the code has used as scratch space. */
  datatype IrState = IrState(regs: Regs, mem: Mem, raxLive: bool, frames: set<Word>)

  predicate InRange(r: int) {
    -1 <= r < 16
  }

  predicate IsInt32(o: int) {
    -TWO_31 <= o < TWO_31
  }

  /** The operations given a meaning here, on the registers R0 and 0..15. */
  predicate IsData(op: Op) {
    match op
    case Alu(_, d, s, t) => InRange(d) && InRange(s) && InRange(t)
    case Div(d, s, t) => InRange(d) && InRange(s) && InRange(t)
    case Shift(_, d, s, t) => InRange(d) && InRange(s) && InRange(t)
    case Less(d, s, t) => InRange(d) && InRange(s) && InRange(t)
    case Load(_, d, s, o) => InRange(d) && InRange(s) && IsInt32(o)
    case Store(_, d, o, s) => InRange(d) && IsInt32(o) && InRange(s)
    case AddImm(d, s, i) => InRange(d) && InRange(s) && IsInt32(i)
    case ShiftImm(_, d, s, i) => InRange(d) && InRange(s) && IsInt32(i)
    case _ => false
  }

  function Val(regs: Regs, r: IrReg): Word {
    if r == R0 then 0 else regs[r]
  }

  predicate Readable(st: IrState, r: IrReg) {
    r == RAX ==> st.raxLive
  }

  predicate Scratched(frames: set<Word>, a: Word) {
    exists f :: f in frames && InWindow(a, f, 8)
  }

  predicate Untouched(frames: set<Word>, a: Word, n: nat) {
    forall i :: 0 <= i < n ==> !Scratched(frames, Offset(a, i))
  }

  function Write(st: IrState, d: IrReg, v: Word): IrState
    requires d != R0
  {
    st.(regs := st.regs[d := v], raxLive := st.raxLive || d == RAX)
  }

  function UseFrame(st: IrState): IrState {
    st.(frames := st.frames + {Offset(st.regs[RSP], -8)})
  }

  function ShiftBy(left: bool, x: Word, count: nat): Word {
    if left then ShiftLeft(x, count) else ShiftRight(x, count)
  }

  /** Quotient of signed division, defined when it is representable. */
  function Quotient(x: Word, y: Word): Option<Word> {
    if y == 0 then None
    else
      var q := TruncDiv(Signed(x), Signed(y));
      if q < TWO_63 then Some(Wrap(q)) else None
  }

  /** What an operation computes; None where the language gives it no meaning: reading RAX or a stack slot
      the code has used as scratch space, or a division with no representable quotient. */
  function IrStep(op: Op, st: IrState): Option<IrState>
    requires IsData(op)
  {
    match op
    case Store(wide, d, o, s) => StoreStep(wide, d, o, s, st)
    case Load(wide, d, s, o) => if d == R0 then Some(st) else LoadStep(wide, d, s, o, st)
    case AddImm(d, s, i) =>
      if d == R0 then Some(st)
      else if !Readable(st, s) then None
      else Some(Write(st, d, Wrap(Val(st.regs, s) + i)))
    case ShiftImm(left, d, s, i) =>
      if d == R0 then Some(st)
      else if !Readable(st, s) then None
      else Some(Write(st, d, ShiftBy(left, Val(st.regs, s), i % 64)))
    case _ =>
      if op.d == R0 then Some(st)
      else if !Readable(st, op.s) || !Readable(st, op.t) then None
      else RegisterStep(op, st)
  }

  /** The three-operand operations on defined registers. */
  function RegisterStep(op: Op, st: IrState): Option<IrState>
    requires IsData(op) && op.d != R0 && (op.Alu? || op.Shift? || op.Less? || op.Div?)
  {
    var x, y := Val(st.regs, op.s), Val(st.regs, op.t);
    match op
    case Alu(k, d, s, t) => Some(Write(st, d, Compute(k, x, y)))
    case Shift(left, d, s, t) =>
      Some(Write(UseFrame(st), d, ShiftBy(left, x, y % 64)))
    case Less(d, s, t) => Some(Write(st.(raxLive := false), d, Flag(Signed(x) < Signed(y))))
    case Div(d, s, t) =>
      match Quotient(x, y)
      case None => None
      case Some(q) => Some(Write(UseFrame(st.(raxLive := false)), d, q))
  }

  /** Memory operands that involve the stack pointer cost the value in RAX. */
  function ThroughRax(s: IrReg, st: IrState): IrState {
    if s == RSP then st.(raxLive := false) else st
  }

  function LoadStep(wide: bool, d: Reg, s: IrReg, o: int, st: IrState): Option<IrState> {
    var a := Offset(Val(st.regs, s), o);
    if Readable(st, s) && Untouched(st.frames, a, Width(wide))
    then Some(Write(ThroughRax(s, st), d, LoadedValue(wide, st.mem, a)))
    else None
  }

  /** The low bytes of register s go to memory at d + o. */
  function StoreStep(wide: bool, d: IrReg, o: int, s: IrReg, st: IrState): Option<IrState> {
    var a, n := Offset(Val(st.regs, d), o), Width(wide);
    if Readable(st, d) && Readable(st, s) && Untouched(st.frames, a, n)
    then Some(ThroughRax(s, st).(mem := StoreBytes(st.mem, a, ToBytes(Val(st.regs, s), n))))
    else None
  }

  // ----- Correctness of the emitted code -----

  /** The machine holds every defined register and every memory byte outside the scratch slots. */
  ghost predicate Match(m: Machine, st: IrState) {
    && (forall r: Reg :: r != RAX || st.raxLive ==> m.regs[r] == st.regs[r])
    && (forall a: Word :: !Scratched(st.frames, a) ==> At(m.mem, a) == At(st.mem, a))
  }

  /** CDQ only fills EDX from bit 31 of RAX, so the dividend is right for these values of s. */
  predicate Workable(op: Op, st: IrState)
    requires IsData(op)
  {
    op.Div? && op.d != R0 && op.s != R0 && op.t != R0 ==>
      var x := Val(st.regs, op.s);
      x < TWO_63 && Wrap32(x) < TWO_31
  }

  /** Running the bytes of op from m falls through into a machine that holds the state op computes. */
  ghost predicate CorrectAt(op: Op, m: Machine, st: IrState)
    requires IsData(op) && IrStep(op, st).Some?
  {
    var o := RunBytes(Code(op), m);
    o.Next? && Match(o.m, IrStep(op, st).value)
  }

  /** Correct from every machine that holds a state in which op has a meaning and is workable. */
  ghost predicate Correct(op: Op)
    requires IsData(op)
  {
    forall m: Machine, st: IrState ::
      Match(m, st) && IrStep(op, st).Some? && Workable(op, st) ==> CorrectAt(op, m, st)
  }

  /** No operand that the code overwrites before its last use. */
  predicate NoOverlap(d: int, s: int, t: int) {
    t != d || s == d
  }

  /** The operand combinations for which the emitter's code is right. */
  predicate Sound(op: Op)
    requires IsData(op)
  {
    match op
    case Alu(k, d, s, t) => d == R0 || SoundAlu(k, d, s, t)
    case Div(d, s, t) =>
      || d == R0 || s == R0 || t == R0
      || (d != RDX && d != RSP && s != RSP && t != RDX && t != RSP && (t != RAX || s == RAX))
    case Shift(left, d, s, t) =>
      if d == R0 || s == R0 then true
      else if t == R0 then s == d
      else d != RCX && d != RSP && t != RSP && NoOverlap(d, s, t)
    case Less(d, s, t) => d == R0 || s != R0 || s == t
    case Load(wide, d, s, o) => d == R0 || (s != R0 && s != R12)
    case Store(wide, d, o, s) =>
      d != R0 && s != R0 && PlainBase(d) && if s == RSP then o == 0 && d != RAX else o == s
    case AddImm(d, s, i) =>
      if d != R0 then s == R0 || (s == d && i == 0)
      else (s == R0 || s == RDI) && (i == 0 || HwReg(i) == RDI)
    case ShiftImm(left, d, s, i) => d == R0 || s == R0 || (s == d && (i == R0 || i % 64 == 0))
  }

  predicate SoundAlu(k: BinOp, d: Reg, s: IrReg, t: IrReg) {
    if s != R0 && t != R0 then NoOverlap(d, s, t) && (k == BinOp.Xor ==> s != t)
    else if s == R0 && t == R0 then true
    else (k == Sub ==> t == R0) && k != BinOp.And
  }
}

/** The part of an x86-64 processor that emitted integer code uses: sixteen registers, a byte memory,
    and the flags that CMP and TEST set. Instructions outside that part, and reads of flags that are
    not known to come from CMP or TEST, are stuck. */
module X64Machine {
  import opened Bits
  import opened X64Encoding

  const RAX: Reg := 0
  const RCX: Reg := 1
  const RDX: Reg := 2
  const RSP: Reg := 4
  const RDI: Reg := 7
  const R12: Reg := 12

  type Regs = s: seq<Word> | |s| == 16 witness seq(16, _ => 0)

  /** Bytes not in the map read as zero. */
  type Mem = map<Word, Byte>

  datatype Flags = Flags(zero: bool, sign: bool, overflow: bool)

  datatype Machine = Machine(regs: Regs, flags: Option<Flags>, mem: Mem)

  /** Next: fall through. Jump: a taken branch with this displacement. Called, CalledAt: a call by
      displacement or to an address. Returned: a return. Stuck: a fault, or bytes outside the subset. */
  datatype Outcome =
    | Next(m: Machine)
    | Jump(rel: Word32, m: Machine)
    | Called(rel: Word32, m: Machine)
    | CalledAt(target: Word, m: Machine)
    | Returned(m: Machine)
    | Stuck

  // ----- Memory -----

  function At(mem: Mem, a: Word): Byte {
    if a in mem then mem[a] else 0
  }

  /** Address arithmetic wraps around. */
  function Offset(a: int, k: int): Word {
    Wrap(a + k)
  }

  function LoadBytes(mem: Mem, a: Word, n: nat): (bs: seq<Byte>)
    ensures |bs| == n
    decreases n, mem
  {
    if n == 0 then [] else [At(mem, a)] + LoadBytes(mem, Offset(a, 1), n - 1)
  }

  /** Bytes of a 64-bit or a 32-bit access. */
  function Width(wide: bool): nat {
    if wide then 8 else 4
  }

  function LoadedValue(wide: bool, mem: Mem, a: Word): Word {
    Wrap(FromBytes(LoadBytes(mem, a, Width(wide))))
  }

  function StoreBytes(mem: Mem, a: Word, bs: seq<Byte>): Mem
    decreases |bs|
  {
    if bs == [] then mem else StoreBytes(mem[a := bs[0]], Offset(a, 1), bs[1..])
  }

  /** b lies in the n bytes that start at a, addresses wrapping around. */
  predicate InWindow(b: int, a: int, n: nat) {
    Wrap(b - a) < n
  }

  lemma {:induction false} StoreOutside(mem: Mem, a: Word, bs: seq<Byte>, b: Word)
    requires |bs| <= TWO_64 && !InWindow(b, a, |bs|)
    ensures At(StoreBytes(mem, a, bs), b) == At(mem, b)
    decreases |bs|
  {
    if bs == [] {
    } else {
      WindowTail(b, a, |bs|);
      StoreOutside(mem[a := bs[0]], Offset(a, 1), bs[1..], b);
    }
  }

  lemma WrapDifference(b: Word, a: Word)
    ensures Wrap(b - a) == if b >= a then b - a else b - a + TWO_64
  {
  }

  lemma WrapSuccessor(a: Word)
    ensures Offset(a, 1) == if a == TWO_64 - 1 then 0 else a + 1
  {
  }

  lemma WindowTail(b: Word, a: Word, n: nat)
    requires 0 < n <= TWO_64
    ensures InWindow(b, a, n) <==> b == a || InWindow(b, Offset(a, 1), n - 1)
  {
    WrapSuccessor(a);
    WrapDifference(b, a);
    WrapDifference(b, Offset(a, 1));
  }

  lemma StartOutsideTail(a: Word, n: nat)
    requires 0 < n <= TWO_64
    ensures !InWindow(a, Offset(a, 1), n - 1)
  {
    WrapSuccessor(a);
    WrapDifference(a, Offset(a, 1));
  }

  lemma FirstByteStored(mem: Mem, a: Word, bs: seq<Byte>)
    requires 0 < |bs| <= TWO_64
    ensures At(StoreBytes(mem, a, bs), a) == bs[0]
  {
    StartOutsideTail(a, |bs|);
    StoreOutside(mem[a := bs[0]], Offset(a, 1), bs[1..], a);
  }

  lemma {:induction false} LoadAfterStore(mem: Mem, a: Word, bs: seq<Byte>)
    requires |bs| <= TWO_64
    ensures LoadBytes(StoreBytes(mem, a, bs), a, |bs|) == bs
    decreases |bs|
  {
    if bs == [] {
    } else {
      var first, next := mem[a := bs[0]], Offset(a, 1);
      LoadAfterStore(first, next, bs[1..]);
      FirstByteStored(mem, a, bs);
      var after := StoreBytes(mem, a, bs);
      assert after == StoreBytes(first, next, bs[1..]);
      assert LoadBytes(after, a, |bs|) == [At(after, a)] + LoadBytes(after, next, |bs| - 1);
    }
  }

  // ----- Arithmetic -----

  datatype BinOp = Add | Sub | Mul | And | Or | Xor

  function Compute(k: BinOp, x: Word, y: Word): Word {
    match k
    case Add => Wrap(x + y)
    case Sub => Wrap(x - y)
    case Mul => Wrap(x * y)
    case And => BitwiseWord(BitOp.And, x, y)
    case Or => BitwiseWord(BitOp.Or, x, y)
    case Xor => BitwiseWord(BitOp.Xor, x, y)
  }

  function BitwiseWord(op: BitOp, x: Word, y: Word): Word {
    Pow2Values();
    BitwiseBound(op, 64, x, y);
    Bitwise(op, x, y)
  }

  /** Left shift, dropping the bits that leave the word. */
  function ShiftLeft(x: Word, count: nat): Word {
    Wrap(Shl(x, count))
  }

  /** Arithmetic right shift: division of the signed value, rounding down. */
  function ShiftRight(x: Word, count: nat): Word {
    Wrap(FloorDiv(Signed(x), Pow2(count)))
  }

  function FloorDiv(x: int, d: int): int
    requires d > 0
  {
    x / d
  }

  /** Division rounding toward zero, as IDIV and C do. */
  function TruncDiv(x: int, y: int): int
    requires y != 0
  {
    if (x < 0) == (y < 0) then Abs(x) / Abs(y) else -(Abs(x) / Abs(y))
  }

  function Abs(x: int): nat {
    if x < 0 then -x else x
  }

  /** The flags of the comparison x - y. */
  function Compare(x: Word, y: Word): Flags {
    var diff := Wrap(x - y);
    var exact := Signed(x) - Signed(y);
    Flags(diff == 0, diff >= TWO_63, exact != Signed(diff))
  }

  /** The flags of x & x. */
  function TestSelf(x: Word32): Flags {
    Flags(x == 0, x >= TWO_31, false)
  }

  /** A byte or a 32-bit immediate sign-extended to a word. */
  function SignExtend8(x: Byte): Word {
    if x < 0x80 then x else Wrap(x - 0x100)
  }

  function SignExtend32(x: Word32): Word {
    if x < TWO_31 then x else Wrap(x - TWO_32)
  }

  // ----- Execution -----

  function Put(m: Machine, r: Reg, v: Word): Machine {
    m.(regs := m.regs[r := v])
  }

  /** The flags an arithmetic instruction leaves are treated as unknown. */
  function PutNoFlags(m: Machine, r: Reg, v: Word): Machine {
    Put(m, r, v).(flags := None)
  }

  function BinOpOf(op: Byte): Option<BinOp> {
    if op == 0x01 then Some(Add)
    else if op == 0x29 then Some(Sub)
    else if op == 0x21 then Some(BinOp.And)
    else if op == 0x09 then Some(BinOp.Or)
    else if op == 0x31 then Some(BinOp.Xor)
    else None
  }

  function Exec(i: Instr, m: Machine): Outcome {
    match i
    case RR(op, rm, reg, w) => if w then ExecRR(op, rm, reg, m) else Stuck
    case RR0(op, rm, reg, w) =>
      if op == 0xAF && w then Next(PutNoFlags(m, reg, Compute(Mul, m.regs[reg], m.regs[rm]))) else Stuck
    case RI8(op, rm, reg, imm8) =>
      if op == 0x83 && reg % 8 == 7 then Next(m.(flags := Some(Compare(m.regs[rm], SignExtend8(imm8)))))
      else if op == 0xC1 && reg % 8 == 4 then Next(PutNoFlags(m, rm, ShiftLeft(m.regs[rm], imm8 % 64)))
      else if op == 0xC1 && reg % 8 == 7 then Next(PutNoFlags(m, rm, ShiftRight(m.regs[rm], imm8 % 64)))
      else Stuck
    case RI32(op, mod, rm, reg, imm, w) =>
      if mod == 3 && op == 0xC7 && reg % 8 == 0 && w then Next(Put(m, rm, SignExtend32(imm)))
      else if mod == 2 && PlainBase(rm) then ExecMove(op, Offset(m.regs[rm], SignExtend32(imm)), reg, w, m)
      else Stuck
    case Indexed(form, op, rm, reg, w, sib, imm) =>
      if form.General? then ExecMove(op, SibAddress(m.regs, rm, sib, imm), reg, w, m) else Stuck
    case Op0(op, rm, reg) => ExecOp0(op, rm, reg, m)
    case Jcc(op, imm) =>
      if m.flags.None? then Stuck
      else if m.flags.value.zero == (op == 0x84) then Jump(imm, m)
      else Next(m)
    case TestEax => Next(m.(flags := Some(TestSelf(Wrap32(m.regs[RAX])))))
    case Rel32(op, imm) => if op == 0xE9 then Jump(imm, m) else if op == 0xE8 then Called(imm, m) else Stuck
    case Push(r) => Next(PushValue(m, m.regs[r]))
    case Pop(r) =>
      var a := m.regs[RSP];
      Next(Put(Put(m, RSP, Offset(a, 8)), r, LoadedValue(true, m.mem, a)))
    case Ret => Returned(m)
    case Cdq => Next(Put(m, RDX, if Wrap32(m.regs[RAX]) < TWO_31 then 0 else TWO_32 - 1))
    case _ => Stuck
  }

  /** Load and store of 8 bytes, or of 4: a 32-bit load zero-extends, a 32-bit store cuts. */
  function ExecMove(op: Byte, a: Word, reg: Reg, w: bool, m: Machine): Outcome {
    if op == 0x8B then Next(Put(m, reg, LoadedValue(w, m.mem, a)))
    else if op == 0x89 then Next(m.(mem := StoreBytes(m.mem, a, ToBytes(m.regs[reg], Width(w)))))
    else Stuck
  }

  /** The address a SIB byte names, its base extended by the high bit of rm: base + 2^scale * index +
      displacement. Index 4 stands for none; no REX prefix here extends the index. */
  function SibAddress(regs: Regs, rm: Reg, sib: Byte, imm: Word32): Word {
    var base, index := 8 * (rm / 8) + sib % 8, sib / 8 % 8;
    var scaled := if index == 4 then 0 else Pow2(sib / 64) * regs[index];
    Offset(regs[base], scaled + SignExtend32(imm))
  }

  function PushValue(m: Machine, v: Word): Machine {
    var a := Offset(m.regs[RSP], -8);
    Put(m, RSP, a).(mem := StoreBytes(m.mem, a, ToBytes(v, 8)))
  }

  function ExecRR(op: Byte, rm: Reg, reg: Reg, m: Machine): Outcome {
    var x, y := m.regs[rm], m.regs[reg];
    if op == 0x89 then Next(Put(m, rm, y))
    else if op == 0x39 then Next(m.(flags := Some(Compare(x, y))))
    else if BinOpOf(op).Some? then Next(PutNoFlags(m, rm, Compute(BinOpOf(op).value, x, y)))
    else if op == 0xD3 && reg % 8 == 4 then Next(PutNoFlags(m, rm, ShiftLeft(x, m.regs[RCX] % 256 % 64)))
    else if op == 0xD3 && reg % 8 == 7 then Next(PutNoFlags(m, rm, ShiftRight(x, m.regs[RCX] % 256 % 64)))
    else if op == 0xF7 && reg % 8 == 7 then ExecIdiv(x, m)
    else if op == 0xFF && reg % 8 == 2 then CalledAt(x, m)
    else Stuck
  }

  /** The address execution goes to and the machine there, if `next` is the address after the instruction
      that ended the code. A call pushes that address, a return pops its target. */
  function Transfer(o: Outcome, next: Word): Option<(Word, Machine)> {
    match o
    case Next(m) => Some((next, m))
    case Jump(rel, m) => Some((Offset(next, SignExtend32(rel)), m))
    case Called(rel, m) => Some((Offset(next, SignExtend32(rel)), PushValue(m, next)))
    case CalledAt(target, m) => Some((target, PushValue(m, next)))
    case Returned(m) =>
      var a := m.regs[RSP];
      Some((LoadedValue(true, m.mem, a), Put(m, RSP, Offset(a, 8))))
    case Stuck => None
  }

  /** IDIV: RDX:RAX as a signed 128-bit dividend. A zero divisor or a quotient that does not fit faults. */
  function ExecIdiv(x: Word, m: Machine): Outcome {
    var dividend := Signed(m.regs[RDX]) * TWO_64 + m.regs[RAX];
    if x == 0 then Stuck
    else
      var q := TruncDiv(dividend, Signed(x));
      if -TWO_63 <= q < TWO_63 then
        Next(PutNoFlags(PutNoFlags(m, RAX, Wrap(q)), RDX, Wrap(dividend - q * Signed(x))))
      else Stuck
  }

  /** SETcc writes the low byte of rm; MOVZX zero-extends the low byte of rm into reg. Without a REX
      prefix only the first four registers name their own low byte. */
  function ExecOp0(op: Byte, rm: LowReg, reg: LowReg, m: Machine): Outcome {
    if rm >= 4 then Stuck
    else if op == 0xB6 then Next(Put(m, reg, m.regs[rm] % 256))
    else if m.flags.None? then Stuck
    else
      var f := m.flags.value;
      if op == 0x9C then Next(PutLowByte(m, rm, f.sign != f.overflow))
      else if op == 0x94 then Next(PutLowByte(m, rm, f.zero))
      else Stuck
  }

  function PutLowByte(m: Machine, r: Reg, b: bool): Machine {
    var v := m.regs[r];
    Put(m, r, v - v % 256 + Flag(b))
  }

  /** Run instructions in order until one does not fall through. */
  function Run(ins: seq<Instr>, m: Machine): Outcome
    decreases ins, 0
  {
    if ins == [] then Next(m)
    else AndThen(Exec(ins[0], m), ins[1..])
  }

  function AndThen(o: Outcome, rest: seq<Instr>): Outcome
    decreases rest, 1
  {
    if o.Next? then Run(rest, o.m) else o
  }

  /** Fetch, decode and execute a byte string from its first byte. */
  function RunBytes(b: seq<Byte>, m: Machine): Outcome {
    if b == [] then Next(m)
    else
      match DecodeOne(b)
      case None => Stuck
      case Some((i, n)) =>
        if n == 0 || n > |b| then Stuck
        else
          var o := Exec(i, m);
          if o.Next? then RunBytes(b[n..], o.m) else o
  }

  lemma RunBytesDecoded(b: seq<Byte>, i: Instr, n: nat, m: Machine)
    requires 0 < n <= |b| && DecodeOne(b) == Some((i, n))
    ensures RunBytes(b, m) == var o := Exec(i, m); if o.Next? then RunBytes(b[n..], o.m) else o
  {
  }

  /** One well-formed instruction at the front of any bytes is executed first. */
  lemma RunBytesStep(i: Instr, b: seq<Byte>, m: Machine)
    requires WellFormed(i)
    ensures var o := Exec(i, m);
            RunBytes(Encode(i) + b, m) == if o.Next? then RunBytes(b, o.m) else o
  {
    DecodeEncoded(i, b);
    assert (Encode(i) + b)[|Encode(i)|..] == b;
  }

  /** On well-formed code, executing bytes is executing the instructions they encode. */
  lemma {:induction false} RunBytesIsRun(ins: seq<Instr>, m: Machine)
    requires AllWellFormed(ins)
    ensures RunBytes(EncodeAll(ins), m) == Run(ins, m)
  {
    if ins == [] {
    } else {
      RunBytesStep(ins[0], EncodeAll(ins[1..]), m);
      var r := Exec(ins[0], m);
      if r.Next? {
        RunBytesIsRun(ins[1..], r.m);
      }
    }
  }

  lemma RunCons(i: Instr, rest: seq<Instr>, m: Machine)
    ensures Run([i] + rest, m) == AndThen(Exec(i, m), rest)
  {
    assert ([i] + rest)[1..] == rest;
  }

  lemma {:induction false} RunConcat(a: seq<Instr>, b: seq<Instr>, m: Machine)
    ensures Run(a + b, m) == AndThen(Run(a, m), b)
  {
    if a == [] {
      assert a + b == b;
    } else {
      var i, rest := a[0], a[1..];
      assert a == [i] + rest && a + b == [i] + (rest + b);
      RunCons(i, rest + b, m);
      if Exec(i, m).Next? {
        RunConcat(rest, b, Exec(i, m).m);
      }
    }
  }

  // ----- Facts about the flags and the stack -----

  /** SF differs from OF exactly when the first operand is the smaller signed number. */
  lemma CompareIsSigned(x: Word, y: Word)
    ensures var f := Compare(x, y);
            (f.zero <==> x == y) && (f.sign != f.overflow <==> Signed(x) < Signed(y))
  {
    var diff := Wrap(x - y);
    assert diff == if x >= y then x - y else x - y + TWO_64;
  }

  /** POP restores what PUSH saved, if nothing in between moved RSP or wrote memory. */
  lemma PushPop(m: Machine, v: Word)
    ensures var p := PushValue(m, v);
            && LoadedValue(true, p.mem, p.regs[RSP]) == v
            && Offset(p.regs[RSP], 8) == m.regs[RSP]
  {
    StoredWord(m.mem, Offset(m.regs[RSP], -8), v);
    OffsetBack(m.regs[RSP], 8);
  }

  lemma StoredWord(mem: Mem, a: Word, v: Word)
    ensures LoadedValue(true, StoreBytes(mem, a, ToBytes(v, 8)), a) == v
  {
    StoredBytes(mem, a, v, 8);
  }

  lemma StoredBytes(mem: Mem, a: Word, v: Word, n: nat)
    requires n == 8
    ensures Wrap(FromBytes(LoadBytes(StoreBytes(mem, a, ToBytes(v, n)), a, n))) == v
  {
    assert Pow256(n) == TWO_64 by { Pow256Values(); }
    BytesRoundTrip(v, n);
    LoadAfterStore(mem, a, ToBytes(v, n));
  }

  lemma OffsetBack(a: Word, k: int)
    requires 0 <= k < TWO_64
    ensures Offset(Offset(a, -k), k) == a
  {
    assert Offset(a, -k) == if a >= k then a - k else a - k + TWO_64;
  }

  /** PUSH writes only the eight bytes below RSP. */
  lemma PushFrame(m: Machine, v: Word, b: Word)
    requires !InWindow(b, Offset(m.regs[RSP], -8), 8)
    ensures At(PushValue(m, v).mem, b) == At(m.mem, b)
  {
    StoreOutside(m.mem, Offset(m.regs[RSP], -8), ToBytes(v, 8), b);
  }
}

/** The x86-64 instruction forms the JIT writes, their bytes, and a decoder for them.
    Field layout: Intel SDM Volume 2A, sections 2.1.3 (ModR/M) and 2.2.1 (REX). */
module X64Encoding {
  import opened Bits

  type Reg = r: int | 0 <= r < 16
  type LowReg = r: int | 0 <= r < 8
  type Mod = m: int | 0 <= m < 4

  /** The three forms with a memory operand: RI32 with mod 2, RMF and RMF4. */
  datatype MemForm = General | Scalar | Packed

  /** One constructor per form macro. `rm` and `reg` are the registers (or opcode digit) placed in
      the ModR/M fields of those names; `w` is the REX.W bit. RI32 with mod 2, RMF and RMF4 address
      [rm + imm]. Indexed is what those three become in memory when rm has low bits 4: a SIB byte comes
      before the displacement. No macro writes it, but the processor reads it. */
  datatype Instr =
    | RR(op: Byte, rm: Reg, reg: Reg, w: bool)
    | RR0(op: Byte, rm: Reg, reg: Reg, w: bool)
    | RRF(prefix: Byte, op: Byte, rm: Reg, reg: Reg, w: bool)
    | RMF(op: Byte, rm: Reg, reg: Reg, imm: Word32)
    | RMF4(op: Byte, rm: Reg, reg: Reg, imm: Word32)
    | RI8(op: Byte, rm: Reg, reg: Reg, imm8: Byte)
    | RI32(op: Byte, mod: Mod, rm: Reg, reg: Reg, imm: Word32, w: bool)
    | Indexed(form: MemForm, op: Byte, rm: Reg, reg: Reg, w: bool, sib: Byte, imm: Word32)
    | Op0(op: Byte, lowRm: LowReg, lowReg: LowReg)
    | Rel32(op: Byte, imm: Word32)
    | Jcc(op: Byte, imm: Word32)
    | TestEax
    | Push(r: Reg)
    | Pop(r: Reg)
    | Cdq
    | Ret

  // ----- Opcodes the macros use -----

  predicate IsRR(op: Byte) {
    || op == 0x01 || op == 0x09 || op == 0x21 || op == 0x29 || op == 0x31 || op == 0x39
    || op == 0x89 || op == 0xD1 || op == 0xD3 || op == 0xF7 || op == 0xFF
  }

  predicate IsPacked(op: Byte) {
    op == 0x10 || op == 0x51 || op == 0x58 || op == 0x59 || 0x5C <= op <= 0x5F
  }

  predicate IsRR0(op: Byte) {
    op == 0xAF || op == 0x2E || IsPacked(op)
  }

  predicate IsRRF(prefix: Byte, op: Byte) {
    || (prefix == 0xF3 && (IsPacked(op) || op == 0x2A || op == 0x2D))
    || (prefix == 0x66 && op == 0xEF)
  }

  predicate IsVectorMove(op: Byte) {
    op == 0x10 || op == 0x11
  }

  predicate IsRI32(op: Byte, mod: Mod, w: bool) {
    || (mod == 3 && w && (op == 0xC7 || op == 0x81))
    || (mod == 2 && (op == 0x8B || op == 0x89))
  }

  predicate IsOp0(op: Byte) {
    op == 0x94 || op == 0x95 || op == 0x97 || op == 0x9C || op == 0x9F || op == 0xB6
  }

  predicate IsMemOp(form: MemForm, op: Byte, w: bool) {
    match form
    case General => op == 0x8B || op == 0x89
    case _ => IsVectorMove(op) && !w
  }

  /** A memory base whose low three bits are 4 announces a SIB byte, which no macro writes. */
  predicate PlainBase(r: Reg) {
    r % 8 != 4
  }

  /** The opcode belongs to the form and a memory base needs no SIB byte. */
  predicate WellFormed(i: Instr) {
    match i
    case RR(op, _, _, _) => IsRR(op)
    case RR0(op, _, _, _) => IsRR0(op)
    case RRF(prefix, op, _, _, _) => IsRRF(prefix, op)
    case RMF(op, rm, _, _) => IsVectorMove(op) && PlainBase(rm)
    case RMF4(op, rm, _, _) => IsVectorMove(op) && PlainBase(rm)
    case RI8(op, _, _, _) => op == 0x83 || op == 0xC1
    case RI32(op, mod, rm, _, _, w) => IsRI32(op, mod, w) && (mod == 2 ==> PlainBase(rm))
    case Indexed(form, op, rm, _, w, _, _) => IsMemOp(form, op, w) && !PlainBase(rm)
    case Op0(op, _, _) => IsOp0(op)
    case Rel32(op, _) => op == 0xE8 || op == 0xE9
    case Jcc(op, _) => op == 0x84 || op == 0x85
    case _ => true
  }

  // ----- Encoding -----

  function Flag(b: bool): (f: nat)
    ensures f == 0 || f == 1
  {
    if b then 1 else 0
  }

  /** REX prefix: 0100 W R 0 B. */
  function Rex(rm: Reg, reg: Reg, w: bool): Byte {
    0x40 + 8 * Flag(w) + 4 * (reg / 8) + rm / 8
  }

  /** ModR/M byte: mod, then reg, then rm. */
  function ModRM(rm: int, reg: int, mod: Mod): Byte {
    64 * mod + 8 * (reg % 8) + rm % 8
  }

  /** The bytes of a memory form up to its ModR/M byte. */
  function MemHead(form: MemForm, op: Byte, rm: Reg, reg: Reg, w: bool): (bs: seq<Byte>)
    ensures 3 <= |bs| <= 5
  {
    match form
    case General => [Rex(rm, reg, w), op, ModRM(rm, reg, 2)]
    case Scalar => [0xF3, Rex(rm, reg, w), 0x0F, op, ModRM(rm, reg, 2)]
    case Packed => [Rex(rm, reg, w), 0x0F, op, ModRM(rm, reg, 2)]
  }

  /** The memory form without a SIB byte. */
  function Direct(form: MemForm, op: Byte, rm: Reg, reg: Reg, w: bool, imm: Word32): Instr {
    match form
    case General => RI32(op, 2, rm, reg, imm, w)
    case Scalar => RMF(op, rm, reg, imm)
    case Packed => RMF4(op, rm, reg, imm)
  }

  function Encode(i: Instr): (bs: seq<Byte>)
    ensures |bs| > 0
  {
    match i
    case RR(op, rm, reg, w) => [Rex(rm, reg, w), op, ModRM(rm, reg, 3)]
    case RR0(op, rm, reg, w) => [Rex(rm, reg, w), 0x0F, op, ModRM(rm, reg, 3)]
    case RRF(prefix, op, rm, reg, w) => [prefix, Rex(rm, reg, w), 0x0F, op, ModRM(rm, reg, 3)]
    case RMF(op, rm, reg, imm) => [0xF3, Rex(rm, reg, false), 0x0F, op, ModRM(rm, reg, 2)] + ToBytes(imm, 4)
    case RMF4(op, rm, reg, imm) => [Rex(rm, reg, false), 0x0F, op, ModRM(rm, reg, 2)] + ToBytes(imm, 4)
    case RI8(op, rm, reg, imm8) => [Rex(rm, reg, true), op, ModRM(rm, reg, 3), imm8]
    case RI32(op, mod, rm, reg, imm, w) => [Rex(rm, reg, w), op, ModRM(rm, reg, mod)] + ToBytes(imm, 4)
    case Indexed(form, op, rm, reg, w, sib, imm) => MemHead(form, op, rm, reg, w) + [sib] + ToBytes(imm, 4)
    case Op0(op, rm, reg) => [0x0F, op, ModRM(rm, reg, 3)]
    case Rel32(op, imm) => [op] + ToBytes(imm, 4)
    case Jcc(op, imm) => [0x0F, op] + ToBytes(imm, 4)
    case TestEax => [0x85, 0xC0]
    case Push(r) => if r < 8 then [0x50 + r] else [0x41, 0x48 + r]
    case Pop(r) => if r < 8 then [0x58 + r] else [0x41, 0x50 + r]
    case Cdq => [0x99]
    case Ret => [0xC3]
  }

  function EncodeAll(ins: seq<Instr>): seq<Byte> {
    if ins == [] then [] else Encode(ins[0]) + EncodeAll(ins[1..])
  }

  // ----- Decoding -----

  function Imm32(b: seq<Byte>, at: nat): Word32
    requires at + 4 <= |b|
  {
    FromBytes(b[at..at + 4]) % TWO_32
  }

  /** ModR/M and REX fields of an instruction whose REX prefix is b[at]. */
  function RmField(rex: Byte, modrm: Byte): Reg {
    8 * (rex % 2) + modrm % 8
  }

  function RegField(rex: Byte, modrm: Byte): Reg {
    8 * (rex / 4 % 2) + modrm / 8 % 8
  }

  function WField(rex: Byte): bool {
    rex / 8 % 2 == 1
  }

  /** A REX prefix with a clear X bit. */
  predicate IsRex(b: Byte) {
    0x40 <= b < 0x50 && b / 2 % 2 == 0
  }

  /** Accept an instruction of the given length if it is one the macros can write. */
  function Accept(i: Instr, length: nat): Option<(Instr, nat)> {
    if WellFormed(i) then Some((i, length)) else None
  }

  function DecodeOne(b: seq<Byte>): Option<(Instr, nat)> {
    if b == [] then None
    else if b[0] == 0x99 then Some((Cdq, 1))
    else if b[0] == 0xC3 then Some((Ret, 1))
    else if 0x50 <= b[0] < 0x58 then Some((Push(b[0] - 0x50), 1))
    else if 0x58 <= b[0] < 0x60 then Some((Pop(b[0] - 0x58), 1))
    else if |b| == 1 then None
    else if b[0] == 0x85 then if b[1] == 0xC0 then Some((TestEax, 2)) else None
    else if b[0] == 0xE8 || b[0] == 0xE9 then
      if |b| < 5 then None else Some((Rel32(b[0], Imm32(b, 1)), 5))
    else if b[0] == 0x0F then DecodeEscape(b)
    else if b[0] == 0xF3 || b[0] == 0x66 then DecodePrefixed(b)
    else if IsRex(b[0]) then DecodeRex(b)
    else None
  }

  /** 0x0F without a REX prefix: SETcc and MOVZX on byte registers, or a near Jcc. */
  function DecodeEscape(b: seq<Byte>): Option<(Instr, nat)>
    requires |b| >= 2
  {
    if b[1] == 0x84 || b[1] == 0x85 then
      if |b| < 6 then None else Some((Jcc(b[1], Imm32(b, 2)), 6))
    else if |b| < 3 || b[2] / 64 != 3 then None
    else Accept(Op0(b[1], b[2] % 8, b[2] / 8 % 8), 3)
  }

  /** A mandatory 0xF3 or 0x66 prefix, then REX, 0x0F, opcode and ModR/M. */
  function DecodePrefixed(b: seq<Byte>): Option<(Instr, nat)>
    requires |b| >= 2
  {
    if |b| < 5 || !IsRex(b[1]) || b[2] != 0x0F then None
    else
      var rm, reg, w := RmField(b[1], b[4]), RegField(b[1], b[4]), WField(b[1]);
      if b[4] / 64 == 3 then Accept(RRF(b[0], b[3], rm, reg, w), 5)
      else if b[4] / 64 == 2 && b[0] == 0xF3 then DecodeMemory(Scalar, b[3], rm, reg, w, b, 5)
      else None
  }

  function DecodeRex(b: seq<Byte>): Option<(Instr, nat)>
    requires |b| >= 2 && IsRex(b[0])
  {
    if b[0] == 0x41 && 0x50 <= b[1] < 0x58 then Some((Push(b[1] - 0x48), 2))
    else if b[0] == 0x41 && 0x58 <= b[1] < 0x60 then Some((Pop(b[1] - 0x50), 2))
    else if b[1] == 0x0F then
      if |b| < 4 then None
      else
        var rm, reg, w := RmField(b[0], b[3]), RegField(b[0], b[3]), WField(b[0]);
        if b[3] / 64 == 3 then Accept(RR0(b[2], rm, reg, w), 4)
        else if b[3] / 64 == 2 then DecodeMemory(Packed, b[2], rm, reg, w, b, 4)
        else None
    else if |b| < 3 then None
    else
      var rm, reg, w, mod := RmField(b[0], b[2]), RegField(b[0], b[2]), WField(b[0]), b[2] / 64;
      if mod == 3 && IsRR(b[1]) then Some((RR(b[1], rm, reg, w), 3))
      else if b[1] == 0x83 || b[1] == 0xC1 then
        if mod == 3 && w && |b| >= 4 then Some((RI8(b[1], rm, reg, b[3]), 4)) else None
      else if mod == 2 then DecodeMemory(General, b[1], rm, reg, w, b, 3)
      else if |b| >= 7 then Accept(RI32(b[1], mod, rm, reg, Imm32(b, 3), w), 7)
      else None
  }

  /** What follows the ModR/M byte of a memory form: a SIB byte if the base announces one, then the
      displacement. */
  function DecodeMemory(form: MemForm, op: Byte, rm: Reg, reg: Reg, w: bool, b: seq<Byte>, at: nat)
    : Option<(Instr, nat)>
    requires at <= |b|
  {
    if !IsMemOp(form, op, w) then None
    else if PlainBase(rm) then
      if |b| < at + 4 then None else Some((Direct(form, op, rm, reg, w, Imm32(b, at)), at + 4))
    else
      if |b| < at + 5 then None else Some((Indexed(form, op, rm, reg, w, b[at], Imm32(b, at + 1)), at + 5))
  }

  /** Decode a whole byte string into instructions. */
  function DecodeAll(b: seq<Byte>): Option<seq<Instr>> {
    if b == [] then Some([])
    else
      match DecodeOne(b)
      case None => None
      case Some((i, n)) =>
        if n == 0 || n > |b| then None
        else
          match DecodeAll(b[n..])
          case None => None
          case Some(rest) => Some([i] + rest)
  }

  // ----- The decoder inverts the encoder -----

  lemma Imm32OfEncoding(head: seq<Byte>, imm: Word32, rest: seq<Byte>)
    ensures Imm32(head + ToBytes(imm, 4) + rest, |head|) == imm
  {
    var b := head + ToBytes(imm, 4) + rest;
    assert b[|head|..|head| + 4] == ToBytes(imm, 4);
    Pow256Values();
    BytesRoundTrip(imm, 4);
  }

  lemma ModRMFields(rm: int, reg: int, mod: Mod)
    ensures ModRM(rm, reg, mod) / 64 == mod
    ensures ModRM(rm, reg, mod) / 8 % 8 == reg % 8 && ModRM(rm, reg, mod) % 8 == rm % 8
  {
    var x, y := rm % 8, reg % 8;
    assert ModRM(rm, reg, mod) == 64 * mod + 8 * y + x;
    assert (64 * mod + 8 * y + x) / 8 == 8 * mod + y;
  }

  lemma ModRMOfFields(modrm: Byte)
    ensures ModRM(modrm % 8, modrm / 8 % 8, modrm / 64) == modrm
  {
    var q := modrm / 8;
    assert modrm / 64 == q / 8;
  }

  lemma RexFields(rm: Reg, reg: Reg, w: bool)
    ensures var rex := Rex(rm, reg, w);
            IsRex(rex) && rex % 2 == rm / 8 && rex / 4 % 2 == reg / 8 && WField(rex) == w
  {
    assert (rm / 8 == 0 || rm / 8 == 1) && (reg / 8 == 0 || reg / 8 == 1);
  }

  lemma RexOfFields(rex: Byte)
    requires IsRex(rex)
    ensures 0x40 + 8 * Flag(WField(rex)) + 4 * (rex / 4 % 2) + rex % 2 == rex
  {
    assert || rex == 0x40 || rex == 0x41 || rex == 0x44 || rex == 0x45
           || rex == 0x48 || rex == 0x49 || rex == 0x4C || rex == 0x4D;
  }

  lemma FieldsOfEncoding(rm: Reg, reg: Reg, w: bool, mod: Mod)
    ensures var rex, modrm := Rex(rm, reg, w), ModRM(rm, reg, mod);
            && IsRex(rex) && modrm / 64 == mod
            && RmField(rex, modrm) == rm && RegField(rex, modrm) == reg && WField(rex) == w
  {
    RexFields(rm, reg, w);
    ModRMFields(rm, reg, mod);
  }

  lemma EncodingOfFields(rex: Byte, modrm: Byte)
    requires IsRex(rex)
    ensures Rex(RmField(rex, modrm), RegField(rex, modrm), WField(rex)) == rex
    ensures ModRM(RmField(rex, modrm), RegField(rex, modrm), modrm / 64) == modrm
  {
    var rm, reg := RmField(rex, modrm), RegField(rex, modrm);
    assert rm / 8 == rex % 2 && rm % 8 == modrm % 8 by { HighAndLow(rex % 2, modrm % 8); }
    assert reg / 8 == rex / 4 % 2 && reg % 8 == modrm / 8 % 8 by { HighAndLow(rex / 4 % 2, modrm / 8 % 8); }
    assert Rex(rm, reg, WField(rex)) == rex by { RexOfFields(rex); }
    assert ModRM(rm, reg, modrm / 64) == modrm by {
      ModRMOfFields(modrm);
      ModRMOnLowBits(rm, reg, modrm / 64);
    }
  }

  lemma ModRMOnLowBits(rm: int, reg: int, mod: Mod)
    ensures ModRM(rm, reg, mod) == ModRM(rm % 8, reg % 8, mod)
  {
  }

  lemma HighAndLow(h: int, l: LowReg)
    ensures (8 * h + l) / 8 == h && (8 * h + l) % 8 == l
  {
  }

  lemma BytesOfImm32(b: seq<Byte>, at: nat)
    requires at + 4 <= |b|
    ensures ToBytes(Imm32(b, at), 4) == b[at..at + 4]
  {
    var s := b[at..at + 4];
    FromBytesBound(s);
    Pow256Values();
    BytesRoundTripBack(s);
  }

  lemma DecodeEncodedRegister(i: Instr, rest: seq<Byte>)
    requires WellFormed(i) && (i.RR? || i.RI8?)
    ensures DecodeOne(Encode(i) + rest) == Some((i, |Encode(i)|))
  {
    var b := Encode(i) + rest;
    FieldsOfEncoding(i.rm, i.reg, if i.RI8? then true else i.w, 3);
    assert DecodeOne(b) == DecodeRex(b);
  }

  lemma DecodeEncodedRR0(i: Instr, rest: seq<Byte>)
    requires WellFormed(i) && i.RR0?
    ensures DecodeOne(Encode(i) + rest) == Some((i, |Encode(i)|))
  {
    var b := Encode(i) + rest;
    FieldsOfEncoding(i.rm, i.reg, i.w, 3);
    assert DecodeOne(b) == DecodeRex(b);
  }

  lemma DecodeEncodedRRF(i: Instr, rest: seq<Byte>)
    requires WellFormed(i) && i.RRF?
    ensures DecodeOne(Encode(i) + rest) == Some((i, |Encode(i)|))
  {
    var b := Encode(i) + rest;
    var rex, modrm := Rex(i.rm, i.reg, i.w), ModRM(i.rm, i.reg, 3);
    assert b[0] == i.prefix && b[1] == rex && b[2] == 0x0F && b[3] == i.op && b[4] == modrm;
    FieldsOfEncoding(i.rm, i.reg, i.w, 3);
    assert DecodeOne(b) == DecodePrefixed(b);
  }

  lemma DecodeGeneral(op: Byte, rm: Reg, reg: Reg, w: bool, b: seq<Byte>)
    requires IsMemOp(General, op, w)
    requires |b| >= 3 && b[0] == Rex(rm, reg, w) && b[1] == op && b[2] == ModRM(rm, reg, 2)
    ensures DecodeOne(b) == DecodeMemory(General, op, rm, reg, w, b, 3)
  {
    FieldsOfEncoding(rm, reg, w, 2);
    assert DecodeOne(b) == DecodeRex(b);
  }

  lemma DecodeScalar(op: Byte, rm: Reg, reg: Reg, w: bool, b: seq<Byte>)
    requires |b| >= 5 && b[0] == 0xF3 && b[1] == Rex(rm, reg, w) && b[2] == 0x0F && b[3] == op
    requires b[4] == ModRM(rm, reg, 2)
    ensures DecodeOne(b) == DecodeMemory(Scalar, op, rm, reg, w, b, 5)
  {
    FieldsOfEncoding(rm, reg, w, 2);
    assert DecodeOne(b) == DecodePrefixed(b);
  }

  lemma DecodePacked(op: Byte, rm: Reg, reg: Reg, w: bool, b: seq<Byte>)
    requires |b| >= 4 && b[0] == Rex(rm, reg, w) && b[1] == 0x0F && b[2] == op && b[3] == ModRM(rm, reg, 2)
    ensures DecodeOne(b) == DecodeMemory(Packed, op, rm, reg, w, b, 4)
  {
    FieldsOfEncoding(rm, reg, w, 2);
    assert DecodeOne(b) == DecodeRex(b);
  }

  /** A memory form starts with its head, from which the decoder goes on to the displacement. */
  lemma DecodeFromHead(form: MemForm, op: Byte, rm: Reg, reg: Reg, w: bool, b: seq<Byte>)
    requires IsMemOp(form, op, w) && MemHead(form, op, rm, reg, w) <= b
    ensures DecodeOne(b) == DecodeMemory(form, op, rm, reg, w, b, |MemHead(form, op, rm, reg, w)|)
  {
    match form
    case General => DecodeGeneral(op, rm, reg, w, b);
    case Scalar => DecodeScalar(op, rm, reg, w, b);
    case Packed => DecodePacked(op, rm, reg, w, b);
  }

  /** Without a SIB byte, a memory form is its head and the displacement. */
  lemma EncodeDirect(form: MemForm, op: Byte, rm: Reg, reg: Reg, w: bool, imm: Word32)
    requires IsMemOp(form, op, w)
    ensures Encode(Direct(form, op, rm, reg, w, imm)) == MemHead(form, op, rm, reg, w) + ToBytes(imm, 4)
  {
  }

  lemma DecodeEncodedDirect(form: MemForm, op: Byte, rm: Reg, reg: Reg, w: bool, imm: Word32, rest: seq<Byte>)
    requires IsMemOp(form, op, w) && PlainBase(rm)
    ensures var i := Direct(form, op, rm, reg, w, imm);
            DecodeOne(Encode(i) + rest) == Some((i, |Encode(i)|))
  {
    var head, i := MemHead(form, op, rm, reg, w), Direct(form, op, rm, reg, w, imm);
    var b := Encode(i) + rest;
    assert b == head + ToBytes(imm, 4) + rest && |Encode(i)| == |head| + 4 by {
      EncodeDirect(form, op, rm, reg, w, imm);
    }
    DecodeFromHead(form, op, rm, reg, w, b);
    Imm32OfEncoding(head, imm, rest);
  }

  lemma DecodeEncodedIndexed(i: Instr, rest: seq<Byte>)
    requires WellFormed(i) && i.Indexed?
    ensures DecodeOne(Encode(i) + rest) == Some((i, |Encode(i)|))
  {
    var head := MemHead(i.form, i.op, i.rm, i.reg, i.w);
    var b, sibbed := Encode(i) + rest, head + [i.sib];
    assert b == sibbed + ToBytes(i.imm, 4) + rest && |Encode(i)| == |head| + 5 && b[|head|] == i.sib;
    DecodeFromHead(i.form, i.op, i.rm, i.reg, i.w, b);
    Imm32OfEncoding(sibbed, i.imm, rest);
  }

  lemma DecodeEncodedRI32(i: Instr, rest: seq<Byte>)
    requires WellFormed(i) && i.RI32? && i.mod == 3
    ensures DecodeOne(Encode(i) + rest) == Some((i, |Encode(i)|))
  {
    var rex, modrm := Rex(i.rm, i.reg, i.w), ModRM(i.rm, i.reg, 3);
    var b := Encode(i) + rest;
    FieldsOfEncoding(i.rm, i.reg, i.w, 3);
    assert b[0] == rex && b[1] == i.op && b[2] == modrm && |b| >= 7;
    assert Imm32(b, 3) == i.imm by {
      Imm32OfEncoding([rex, i.op, modrm], i.imm, rest);
    }
    assert DecodeOne(b) == DecodeRex(b);
  }

  lemma DecodeEncodedPlain(i: Instr, rest: seq<Byte>)
    requires WellFormed(i) && (i.Op0? || i.Rel32? || i.Jcc?)
    ensures DecodeOne(Encode(i) + rest) == Some((i, |Encode(i)|))
  {
    match i
    case Op0(op, rm, reg) => ModRMFields(rm, reg, 3);
    case Rel32(op, imm) => Imm32OfEncoding([op], imm, rest);
    case Jcc(op, imm) => Imm32OfEncoding([0x0F, op], imm, rest);
  }

  /** Decoding a well-formed instruction gives it back, whatever bytes follow. */
  lemma DecodeEncoded(i: Instr, rest: seq<Byte>)
    requires WellFormed(i)
    ensures DecodeOne(Encode(i) + rest) == Some((i, |Encode(i)|))
  {
    if i.RR? || i.RI8? {
      DecodeEncodedRegister(i, rest);
    } else if i.RR0? {
      DecodeEncodedRR0(i, rest);
    } else if i.RRF? {
      DecodeEncodedRRF(i, rest);
    } else if i.RMF? {
      DecodeEncodedDirect(Scalar, i.op, i.rm, i.reg, false, i.imm, rest);
    } else if i.RMF4? {
      DecodeEncodedDirect(Packed, i.op, i.rm, i.reg, false, i.imm, rest);
    } else if i.RI32? && i.mod == 2 {
      DecodeEncodedDirect(General, i.op, i.rm, i.reg, i.w, i.imm, rest);
    } else if i.RI32? {
      DecodeEncodedRI32(i, rest);
    } else if i.Indexed? {
      DecodeEncodedIndexed(i, rest);
    } else if i.Op0? || i.Rel32? || i.Jcc? {
      DecodeEncodedPlain(i, rest);
    }
  }

  predicate DecodesTo(b: seq<Byte>, i: Instr, n: nat) {
    WellFormed(i) && 0 < n <= |b| && Encode(i) == b[..n]
  }

  lemma EscapeDecoded(b: seq<Byte>)
    requires |b| >= 2 && b[0] == 0x0F && DecodeEscape(b).Some?
    ensures DecodesTo(b, DecodeEscape(b).value.0, DecodeEscape(b).value.1)
  {
    if b[1] == 0x84 || b[1] == 0x85 {
      BytesOfImm32(b, 2);
    } else {
      ModRMOfFields(b[2]);
    }
  }

  lemma PrefixedDecoded(b: seq<Byte>)
    requires |b| >= 2 && (b[0] == 0xF3 || b[0] == 0x66) && DecodePrefixed(b).Some?
    ensures DecodesTo(b, DecodePrefixed(b).value.0, DecodePrefixed(b).value.1)
  {
    EncodingOfFields(b[1], b[4]);
    if b[4] / 64 == 2 {
      MemoryDecoded(Scalar, b[3], RmField(b[1], b[4]), RegField(b[1], b[4]), WField(b[1]), b, 5);
    }
  }

  /** A memory form whose head has been read. */
  lemma MemoryDecoded(form: MemForm, op: Byte, rm: Reg, reg: Reg, w: bool, b: seq<Byte>, at: nat)
    requires at <= |b| && b[..at] == MemHead(form, op, rm, reg, w)
    requires DecodeMemory(form, op, rm, reg, w, b, at).Some?
    ensures var r := DecodeMemory(form, op, rm, reg, w, b, at).value; DecodesTo(b, r.0, r.1)
  {
    if PlainBase(rm) {
      BytesOfImm32(b, at);
      assert b[..at + 4] == b[..at] + b[at..at + 4];
    } else {
      BytesOfImm32(b, at + 1);
      assert b[..at + 5] == b[..at] + [b[at]] + b[at + 1..at + 5];
    }
  }

  lemma RexDecoded(b: seq<Byte>)
    requires |b| >= 2 && IsRex(b[0]) && DecodeRex(b).Some?
    ensures DecodesTo(b, DecodeRex(b).value.0, DecodeRex(b).value.1)
  {
    if b[0] == 0x41 && 0x50 <= b[1] < 0x60 {
    } else if b[1] == 0x0F {
      RexEscapeDecoded(b);
    } else {
      RexPlainDecoded(b);
    }
  }

  lemma RexPlainDecoded(b: seq<Byte>)
    requires |b| >= 3 && IsRex(b[0]) && b[1] != 0x0F && !(0x50 <= b[1] < 0x60) && DecodeRex(b).Some?
    ensures DecodesTo(b, DecodeRex(b).value.0, DecodeRex(b).value.1)
  {
    EncodingOfFields(b[0], b[2]);
    var rm, reg, w, mod := RmField(b[0], b[2]), RegField(b[0], b[2]), WField(b[0]), b[2] / 64;
    if (mod == 3 && IsRR(b[1])) || b[1] == 0x83 || b[1] == 0xC1 {
    } else if mod == 2 {
      MemoryDecoded(General, b[1], rm, reg, w, b, 3);
    } else {
      BytesOfImm32(b, 3);
      assert b[..7] == [b[0], b[1], b[2]] + b[3..7];
    }
  }

  lemma RexEscapeDecoded(b: seq<Byte>)
    requires |b| >= 2 && IsRex(b[0]) && b[1] == 0x0F && DecodeRex(b).Some?
    ensures DecodesTo(b, DecodeRex(b).value.0, DecodeRex(b).value.1)
  {
    EncodingOfFields(b[0], b[3]);
    if b[3] / 64 == 2 {
      MemoryDecoded(Packed, b[2], RmField(b[0], b[3]), RegField(b[0], b[3]), WField(b[0]), b, 4);
    }
  }

  /** Whatever the decoder accepts is exactly the encoding of what it returns. */
  lemma EncodeDecoded(b: seq<Byte>)
    requires DecodeOne(b).Some?
    ensures DecodesTo(b, DecodeOne(b).value.0, DecodeOne(b).value.1)
  {
    if |b| > 1 {
      if b[0] == 0x0F {
        EscapeDecoded(b);
      } else if b[0] == 0xF3 || b[0] == 0x66 {
        PrefixedDecoded(b);
      } else if IsRex(b[0]) {
        RexDecoded(b);
      } else if b[0] == 0xE8 || b[0] == 0xE9 {
        BytesOfImm32(b, 1);
      }
    }
  }

  // ----- Memory bases without their SIB byte -----

  /** What the macros write for such a base is not a whole instruction. */
  lemma SibBaseIncomplete(form: MemForm, op: Byte, rm: Reg, reg: Reg, w: bool, imm: Word32)
    requires IsMemOp(form, op, w) && !PlainBase(rm)
    ensures DecodeOne(Encode(Direct(form, op, rm, reg, w, imm))) == None
  {
    EncodeDirect(form, op, rm, reg, w, imm);
    DecodeFromHead(form, op, rm, reg, w, Encode(Direct(form, op, rm, reg, w, imm)));
  }

  /** As soon as any byte follows, the processor reads on: the first displacement byte is the SIB byte, the
      other three and the byte that follows are the displacement. */
  lemma SibBaseReadsOn(form: MemForm, op: Byte, rm: Reg, reg: Reg, w: bool, imm: Word32, rest: seq<Byte>)
    requires IsMemOp(form, op, w) && !PlainBase(rm) && rest != []
    ensures var code, bytes := Encode(Direct(form, op, rm, reg, w, imm)), ToBytes(imm, 4);
            var read := Indexed(form, op, rm, reg, w, bytes[0], FromBytes(bytes[1..] + [rest[0]]) % TWO_32);
            DecodeOne(code + rest) == Some((read, |code| + 1)) && WellFormed(read)
  {
    var head, bytes := MemHead(form, op, rm, reg, w), ToBytes(imm, 4);
    var b := Encode(Direct(form, op, rm, reg, w, imm)) + rest;
    EncodeDirect(form, op, rm, reg, w, imm);
    DecodeFromHead(form, op, rm, reg, w, b);
    ReadOnBytes(head, bytes, rest);
  }

  lemma ReadOnBytes(head: seq<Byte>, bytes: seq<Byte>, rest: seq<Byte>)
    requires |bytes| == 4 && rest != []
    ensures var b := head + bytes + rest;
            b[|head|] == bytes[0] && b[|head| + 1..|head| + 5] == bytes[1..] + [rest[0]]
  {
    SliceAfter(head, bytes + rest, 1, 5);
    assert head + bytes + rest == head + (bytes + rest);
  }

  lemma SliceAfter(head: seq<Byte>, tail: seq<Byte>, from: nat, to: nat)
    requires from <= to <= |tail|
    ensures (head + tail)[|head| + from..|head| + to] == tail[from..to]
  {
  }

  predicate AllWellFormed(ins: seq<Instr>) {
    forall k :: 0 <= k < |ins| ==> WellFormed(ins[k])
  }

  /** The instruction stream is recovered from its bytes exactly when every instruction is well formed. */
  lemma {:induction false} RoundTrip(ins: seq<Instr>)
    ensures DecodeAll(EncodeAll(ins)) == Some(ins) <==> AllWellFormed(ins)
  {
    if ins == [] {
    } else {
      var b := EncodeAll(ins);
      var n := |Encode(ins[0])|;
      assert b[n..] == EncodeAll(ins[1..]);
      RoundTrip(ins[1..]);
      if WellFormed(ins[0]) {
        DecodeEncoded(ins[0], EncodeAll(ins[1..]));
        assert ins == [ins[0]] + ins[1..];
        assert AllWellFormed(ins) <==> AllWellFormed(ins[1..]) by {
          assert forall k :: 1 <= k < |ins| ==> ins[k] == ins[1..][k - 1];
        }
      } else if DecodeOne(b).Some? {
        EncodeDecoded(b);
      }
    }
  }

  /** The converse direction: a byte string the decoder accepts is the encoding of the result. */
  lemma {:induction false} DecodeAllSound(b: seq<Byte>)
    requires DecodeAll(b).Some?
    ensures AllWellFormed(DecodeAll(b).value) && EncodeAll(DecodeAll(b).value) == b
  {
    if b == [] {
    } else {
      var (i, n) := DecodeOne(b).value;
      EncodeDecoded(b);
      DecodeAllSound(b[n..]);
      DecodedCons(b, i, n, DecodeAll(b[n..]).value);
    }
  }

  lemma DecodedCons(b: seq<Byte>, i: Instr, n: nat, rest: seq<Instr>)
    requires DecodesTo(b, i, n) && AllWellFormed(rest) && EncodeAll(rest) == b[n..]
    ensures AllWellFormed([i] + rest) && EncodeAll([i] + rest) == b
  {
    EncodeAllCons(i, rest);
    assert b == b[..n] + b[n..];
  }

  /** The emitted instruction set is a prefix code. */
  lemma PrefixCode(i: Instr, j: Instr)
    requires WellFormed(i) && WellFormed(j)
    requires Encode(i) <= Encode(j)
    ensures i == j
  {
    var rest := Encode(j)[|Encode(i)|..];
    assert Encode(j) + [] == Encode(i) + rest;
    DecodeEncoded(i, rest);
    DecodeEncoded(j, []);
  }

  lemma EncodeAllCons(i: Instr, rest: seq<Instr>)
    ensures EncodeAll([i] + rest) == Encode(i) + EncodeAll(rest)
  {
    assert ([i] + rest)[1..] == rest;
  }

  lemma {:induction false} EncodeAllConcat(a: seq<Instr>, b: seq<Instr>)
    ensures EncodeAll(a + b) == EncodeAll(a) + EncodeAll(b)
  {
    if a == [] {
      assert a + b == b;
    } else {
      EncodeAllConcat(a[1..], b);
      EncodeAllSplit(a[0], a[1..], b);
      assert a == [a[0]] + a[1..];
    }
  }

  lemma EncodeAllSplit(i: Instr, rest: seq<Instr>, b: seq<Instr>)
    requires EncodeAll(rest + b) == EncodeAll(rest) + EncodeAll(b)
    ensures EncodeAll(([i] + rest) + b) == EncodeAll([i] + rest) + EncodeAll(b)
  {
    ConcatAssociates([i], rest, b);
    EncodeAllCons(i, rest + b);
    EncodeAllCons(i, rest);
    ConcatAssociates(Encode(i), EncodeAll(rest), EncodeAll(b));
  }
}

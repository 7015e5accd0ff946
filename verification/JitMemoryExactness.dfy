/** Loads and stores whose code is wrong, and what the processor makes of a memory base that lacks its SIB
    byte. */
module JitMemoryExactness {
  import opened Bits
  import opened X64Encoding
  import opened X64Machine
  import opened JitIr
  import opened JitSimulation
  import opened JitWitnesses

  // ----- Bases without their SIB byte, alone -----

  /** Code whose last instruction lacks its SIB byte stops there. */
  lemma SibBaseStuck(op: Byte, rm: Reg, reg: Reg, w: bool, imm: Word32, m: Machine)
    requires IsMemOp(General, op, w) && !PlainBase(rm)
    ensures RunBytes(EncodeAll([RI32(op, 2, rm, reg, imm, w)]), m) == Stuck
  {
    var i := RI32(op, 2, rm, reg, imm, w);
    assert i == Direct(General, op, rm, reg, w, imm);
    SibBaseIncomplete(General, op, rm, reg, w, imm);
    EncodeAllCons(i, []);
    assert [i] + [] == [i];
    assert EncodeAll([i]) == Encode(i);
  }

  // ----- Loads -----

  lemma {:induction false} ZeroLoad(a: Word, n: nat)
    ensures FromBytes(LoadBytes(map[], a, n)) == 0
    decreases n
  {
    if n == 0 {
    } else {
      ZeroLoad(Offset(a, 1), n - 1);
      assert LoadBytes(map[], a, n)[1..] == LoadBytes(map[], Offset(a, 1), n - 1);
    }
  }

  /** With R0 as the base nothing is emitted. */
  lemma LoadFromR0(wide: bool, d: Reg, o: int)
    requires IsInt32(o)
    ensures !Correct(Op.Load(wide, d, R0, o))
  {
    var op := Op.Load(wide, d, R0, o);
    ZeroLoad(Offset(0, o), Width(wide));
    assert IrStep(op, StateOf(Uniform(1))).value.regs[d] == 0;
    WrongValue(op, Uniform(1));
  }

  lemma LoadHasMeaning(wide: bool, d: Reg, s: IrReg, o: int, regs: Regs)
    requires IsInt32(o)
    ensures IrStep(Op.Load(wide, d, s, o), StateOf(regs)).Some?
  {
  }

  lemma LoadFromR12(wide: bool, d: Reg, o: int)
    requires IsInt32(o)
    ensures !Correct(Op.Load(wide, d, R12, o))
  {
    var op, load := Op.Load(wide, d, R12, o), RI32(0x8B, 2, R12, d, Wrap32(o), wide);
    assert Lower(op) == [load] by { assert LoadInstr(wide, d, R12, o) == load; }
    SibBaseStuck(0x8B, R12, d, wide, Wrap32(o), MachineOf(Uniform(1)));
    LoadHasMeaning(wide, d, R12, o, Uniform(1));
    StuckCode(op, Uniform(1));
  }

  lemma UnsoundLoad(wide: bool, d: IrReg, s: IrReg, o: int)
    requires IsInt32(o) && !Sound(Op.Load(wide, d, s, o))
    ensures !Correct(Op.Load(wide, d, s, o))
  {
    if s == R0 {
      LoadFromR0(wide, d, o);
    } else {
      LoadFromR12(wide, d, o);
    }
  }

  // ----- Loads from R12 with code after them -----

  /** The displacement the processor reads: the last three bytes of the one written, then the next byte. */
  function ReadOnImm(o: int, next: Byte): Word32 {
    FromBytes(ToBytes(Wrap32(o), 4)[1..] + [next]) % TWO_32
  }

  /** The address it computes, with the first displacement byte as the SIB byte. */
  function ReadOnAddress(regs: Regs, o: int, next: Byte): Word {
    SibAddress(regs, R12, ToBytes(Wrap32(o), 4)[0], ReadOnImm(o, next))
  }

  /** With code after it, a load from R12 takes the first byte of that code into its address, and execution
      goes on one byte late. */
  lemma LoadReadsOn(wide: bool, d: Reg, o: int, rest: seq<Byte>, m: Machine)
    requires IsInt32(o) && rest != []
    ensures RunBytes(Code(Op.Load(wide, d, R12, o)) + rest, m)
         == RunBytes(rest[1..], Put(m, d, LoadedValue(wide, m.mem, ReadOnAddress(m.regs, o, rest[0]))))
  {
    var code := Code(Op.Load(wide, d, R12, o));
    var read := Indexed(General, 0x8B, R12, d, wide, ToBytes(Wrap32(o), 4)[0], ReadOnImm(o, rest[0]));
    DecodeReadsOn(wide, d, o, rest);
    OneByteLate(code, rest, read, m);
    ExecIndexedLoad(wide, d, ToBytes(Wrap32(o), 4)[0], ReadOnImm(o, rest[0]), m);
  }

  lemma DecodeReadsOn(wide: bool, d: Reg, o: int, rest: seq<Byte>)
    requires rest != []
    ensures var code := Code(Op.Load(wide, d, R12, o));
            var read := Indexed(General, 0x8B, R12, d, wide, ToBytes(Wrap32(o), 4)[0], ReadOnImm(o, rest[0]));
            DecodeOne(code + rest) == Some((read, |code| + 1))
  {
    CodeFromR12(wide, d, o);
    SibBaseReadsOn(General, 0x8B, R12, d, wide, Wrap32(o), rest);
  }

  lemma OneByteLate(code: seq<Byte>, rest: seq<Byte>, read: Instr, m: Machine)
    requires rest != [] && DecodeOne(code + rest) == Some((read, |code| + 1))
    ensures RunBytes(code + rest, m) == var o := Exec(read, m); if o.Next? then RunBytes(rest[1..], o.m) else o
  {
    RunBytesDecoded(code + rest, read, |code| + 1, m);
    assert (code + rest)[|code| + 1..] == rest[1..];
  }

  lemma ExecIndexedLoad(wide: bool, d: Reg, sib: Byte, imm: Word32, m: Machine)
    ensures Exec(Indexed(General, 0x8B, R12, d, wide, sib, imm), m)
         == Next(Put(m, d, LoadedValue(wide, m.mem, SibAddress(m.regs, R12, sib, imm))))
  {
  }

  lemma CodeFromR12(wide: bool, d: Reg, o: int)
    ensures Code(Op.Load(wide, d, R12, o)) == Encode(RI32(0x8B, 2, R12, d, Wrap32(o), wide))
  {
    var load := RI32(0x8B, 2, R12, d, Wrap32(o), wide);
    assert LoadInstr(wide, d, R12, o) == load;
    assert [load] + [] == [load];
    EncodeAllCons(load, []);
  }

  /** That address is the intended one from every register file exactly when the four bytes of the offset
      and the byte that follows are all the same, and name base R12 and no index. */
  lemma ReadOnAddressExact(o: int, next: Byte)
    requires IsInt32(o)
    ensures (forall regs: Regs :: ReadOnAddress(regs, o, next) == Offset(regs[R12], o))
       <==> ToBytes(Wrap32(o), 4) == [next, next, next, next] && next % 64 == 0x24
  {
    var bytes := ToBytes(Wrap32(o), 4);
    if bytes == [next, next, next, next] && next % 64 == 0x24 {
      forall regs: Regs ensures ReadOnAddress(regs, o, next) == Offset(regs[R12], o) {
        ReadOnIntended(o, next, regs);
      }
    }
    if forall regs: Regs :: ReadOnAddress(regs, o, next) == Offset(regs[R12], o) {
      assert ReadOnAddress(Uniform(0), o, next) == Offset(Uniform(0)[R12], o);
      SameDisplacement(o, next);
      forall regs: Regs ensures SibAddress(regs, R12, bytes[0], Wrap32(o)) == Offset(regs[R12], o) {
        assert ReadOnAddress(regs, o, next) == Offset(regs[R12], o);
      }
      SibByteIsPlain(o, bytes[0]);
    }
  }

  lemma ReadOnIntended(o: int, next: Byte, regs: Regs)
    requires IsInt32(o) && ToBytes(Wrap32(o), 4) == [next, next, next, next] && next % 64 == 0x24
    ensures ReadOnAddress(regs, o, next) == Offset(regs[R12], o)
  {
    assert ReadOnImm(o, next) == Wrap32(o) by {
      assert ToBytes(Wrap32(o), 4)[1..] + [next] == ToBytes(Wrap32(o), 4);
      ImmOfBytes(Wrap32(o));
    }
    SibOfR12(regs, next, Wrap32(o));
    AddressOf(regs[R12], o);
  }

  lemma ImmOfBytes(imm: Word32)
    ensures FromBytes(ToBytes(imm, 4)) % TWO_32 == imm
  {
    Pow256Values();
    BytesRoundTrip(imm, 4);
  }

  lemma SibOfR12(regs: Regs, sib: Byte, imm: Word32)
    requires sib % 64 == 0x24
    ensures SibAddress(regs, R12, sib, imm) == Offset(regs[R12], SignExtend32(imm))
  {
    assert sib % 8 == 4 && sib / 8 % 8 == 4;
  }

  /** The address from registers of which one is 1 and the others are 0. */
  lemma SibOfOne(r: Reg, sib: Byte, imm: Word32)
    ensures SibAddress(Uniform(0)[r := 1], R12, sib, imm) == Offset(0, SibWeight(r, sib) + SignExtend32(imm))
  {
    assert Pow2(sib / 64) * 0 == 0;
  }

  /** How often the address counts register r. */
  function SibWeight(r: Reg, sib: Byte): nat {
    (if r == 8 + sib % 8 then 1 else 0)
    + if sib / 8 % 8 != 4 && r == sib / 8 % 8 then Pow2(sib / 64) else 0
  }

  lemma SibWeightBound(r: Reg, sib: Byte)
    ensures SibWeight(r, sib) <= 8
  {
    assert Pow2(0) == 1 && Pow2(1) == 2 && Pow2(2) == 4 && Pow2(3) == 8;
    assert sib / 64 == 0 || sib / 64 == 1 || sib / 64 == 2 || sib / 64 == 3;
  }

  lemma OneWeight(disp: Word, weight: nat, meant: nat)
    requires weight <= 8 && meant <= 8 && Offset(0, weight + disp) == Offset(0, meant + disp)
    ensures weight == meant
  {
  }

  /** The right address from registers that are all 0 leaves only the intended displacement. */
  lemma SameDisplacement(o: int, next: Byte)
    requires IsInt32(o) && ReadOnAddress(Uniform(0), o, next) == Offset(0, o)
    ensures ToBytes(Wrap32(o), 4) == [next, next, next, next] && ReadOnImm(o, next) == Wrap32(o)
  {
    var bytes, imm := ToBytes(Wrap32(o), 4), ReadOnImm(o, next);
    assert imm == Wrap32(o) by {
      SibOfZero(bytes[0], imm);
      AddressOf(0, o);
      SignExtendInjective(imm, Wrap32(o));
    }
    BytesOfRead(bytes[1..] + [next], Wrap32(o));
    AllTheSame(bytes, next);
  }

  lemma SibOfZero(sib: Byte, imm: Word32)
    ensures SibAddress(Uniform(0), R12, sib, imm) == Offset(0, SignExtend32(imm))
  {
    assert Pow2(sib / 64) * 0 == 0;
  }

  lemma BytesOfRead(read: seq<Byte>, imm: Word32)
    requires |read| == 4 && FromBytes(read) % TWO_32 == imm
    ensures ToBytes(imm, |read|) == read
  {
    FromBytesBound(read);
    assert Pow256(|read|) == TWO_32 by { Pow256Values(); }
    DivModUnique(FromBytes(read), TWO_32, 0, FromBytes(read));
    BytesRoundTripBack(read);
  }

  lemma AllTheSame(bytes: seq<Byte>, next: Byte)
    requires |bytes| == 4 && bytes == bytes[1..] + [next]
    ensures bytes == [next, next, next, next]
  {
    assert bytes[3] == next;
    assert bytes[2] == bytes[1..][2] && bytes[1] == bytes[1..][1] && bytes[0] == bytes[1..][0];
  }

  lemma SignExtendInjective(x: Word32, y: Word32)
    requires Offset(0, SignExtend32(x)) == Offset(0, SignExtend32(y))
    ensures x == y
  {
  }

  /** The right address where R12 alone is 1, and where the index alone is, leaves only base R12 and no
      index. */
  lemma SibByteIsPlain(o: int, sib: Byte)
    requires IsInt32(o)
    requires forall regs: Regs :: SibAddress(regs, R12, sib, Wrap32(o)) == Offset(regs[R12], o)
    ensures sib % 64 == 0x24
  {
    var index: Reg, disp := sib / 8 % 8, SignExtend32(Wrap32(o));
    RightAddress(R12, sib, o);
    RightAddress(index, sib, o);
    assert SibWeight(R12, sib) == 1 && SibWeight(index, sib) == 0;
    assert sib % 8 == 4 && index == 4;
  }

  lemma RightAddress(r: Reg, sib: Byte, o: int)
    requires IsInt32(o)
    requires SibAddress(Uniform(0)[r := 1], R12, sib, Wrap32(o)) == Offset(Uniform(0)[r := 1][R12], o)
    ensures SibWeight(r, sib) == if r == R12 then 1 else 0
  {
    var meant: Word := if r == R12 then 1 else 0;
    var disp: int := SignExtend32(Wrap32(o));
    SibOfOne(r, sib, Wrap32(o));
    SibWeightBound(r, sib);
    AddressOf(meant, o);
    assert Offset(meant, disp) == Offset(0, meant + disp);
    OneWeight(disp, SibWeight(r, sib), meant);
  }

  // ----- Stores -----

  /** The first byte a store is meant to leave at its address. */
  lemma StoreMeaning(wide: bool, d: IrReg, o: int, s: IrReg, regs: Regs, mem: Mem)
    requires IsInt32(o)
    ensures var st' := IrStep(Op.Store(wide, d, o, s), IrState(regs, mem, true, {}));
            st'.Some? && At(st'.value.mem, Offset(Val(regs, d), o)) == Val(regs, s) % 256
  {
    var n := Width(wide);
    FirstByteStored(mem, Offset(Val(regs, d), o), ToBytes(Val(regs, s), n));
  }

  /** With R0 nothing is emitted. */
  lemma StoreWithR0(wide: bool, d: IrReg, o: int, s: IrReg)
    requires IsInt32(o) && (d == R0 || s == R0)
    ensures !Correct(Op.Store(wide, d, o, s))
  {
    var regs := Uniform(1);
    var a := Offset(Val(regs, d), o);
    var mem: Mem := map[a := if s == R0 then 1 else 0];
    StoreMeaning(wide, d, o, s, regs, mem);
    assert LowerStore(wide, d, o, s) == [];
    WrongByte(Op.Store(wide, d, o, s), regs, mem, a);
  }

  /** A base of RSP or R12 lacks its SIB byte. */
  lemma StoreToSibBase(wide: bool, d: Reg, o: int, s: Reg)
    requires IsInt32(o) && !PlainBase(d)
    ensures !Correct(Op.Store(wide, d, o, s))
  {
    var m := MachineOf(Uniform(1));
    var store := StoreInstr(wide, d, if s == RSP then RAX else s, o);
    var m1 := if s == RSP then Put(m, RAX, m.regs[RSP]) else m;
    assert HwReg(d) == d;
    SibBaseStuck(0x89, d, HwReg(o), wide, store.imm, m1);
    if s == RSP {
      ExecMov(RAX, RSP, m);
      EncodeAllCons(Mov(RAX, s), [store]);
      assert LowerStore(wide, d, o, s) == [Mov(RAX, s)] + [store];
      RunBytesStep(Mov(RAX, s), EncodeAll([store]), m);
    } else {
      assert LowerStore(wide, d, o, s) == [store];
    }
    StoreMeaning(wide, d, o, s, Uniform(1), map[]);
    StuckCode(Op.Store(wide, d, o, s), Uniform(1));
  }

  lemma {:induction false} StoreZeros(mem: Mem, a: Word, n: nat, b: Word)
    requires At(mem, b) == 0
    ensures At(StoreBytes(mem, a, ToBytes(0, n)), b) == 0
    decreases n
  {
    if n == 0 {
    } else {
      assert ToBytes(0, n)[1..] == ToBytes(0, n - 1);
      StoreZeros(mem[a := 0], Offset(a, 1), n - 1, b);
    }
  }

  /** Storing 1 in empty memory leaves every other byte 0. */
  lemma StoreOne(a: Word, n: nat, b: Word)
    requires n > 0 && a != b
    ensures At(StoreBytes(map[], a, ToBytes(1, n)), b) == 0
  {
    assert ToBytes(1, n)[0] == 1 && ToBytes(1, n)[1..] == ToBytes(0, n - 1);
    StoreZeros(map[a := 1], Offset(a, 1), n - 1, b);
  }

  /** The code stores 1 at another address than the one meant. */
  lemma StoreRefuted(wide: bool, d: Reg, o: int, s: Reg, regs: Regs, m1: Machine)
    requires IsInt32(o) && PlainBase(d) && regs[s] == 1
    requires m1 == if s == RSP then Put(MachineOf(regs), RAX, regs[RSP]) else MachineOf(regs)
    requires m1.regs[HwReg(o)] == 1
    requires Offset(m1.regs[d], if s == RSP then RAX else s) != Offset(regs[d], o)
    ensures !Correct(Op.Store(wide, d, o, s))
  {
    var a := Offset(regs[d], o);
    StoreMisses(wide, d, o, s, MachineOf(regs), a);
    StoreMeaning(wide, d, o, s, regs, map[]);
    StoreWellFormed(wide, d, o, s);
    WrongByte(Op.Store(wide, d, o, s), regs, map[], a);
  }

  /** A store of 1 to empty memory at another address leaves the byte at a as it was. */
  lemma StoreMisses(wide: bool, d: Reg, o: int, s: Reg, m: Machine, a: Word)
    requires IsInt32(o) && PlainBase(d) && m.mem == map[]
    requires var m1 := if s == RSP then Put(m, RAX, m.regs[RSP]) else m;
             m1.regs[HwReg(o)] == 1 && Offset(m1.regs[d], if s == RSP then RAX else s) != a
    ensures var r := Run(LowerStore(wide, d, o, s), m); r.Next? && At(r.m.mem, a) == 0
  {
    var m1 := if s == RSP then Put(m, RAX, m.regs[RSP]) else m;
    StoreRuns(wide, d, o, s, m);
    StoreOne(Offset(m1.regs[d], if s == RSP then RAX else s), Width(wide), a);
  }

  lemma StoreWellFormed(wide: bool, d: Reg, o: int, s: Reg)
    requires PlainBase(d)
    ensures AllWellFormed(LowerStore(wide, d, o, s))
  {
  }

  /** The offset written is the number of a register. */
  lemma StoreElsewhere(wide: bool, d: Reg, o: int, s: Reg)
    requires IsInt32(o) && PlainBase(d) && o != if s == RSP then RAX else s
    ensures !Correct(Op.Store(wide, d, o, s))
  {
    var m := MachineOf(Uniform(1));
    var m1 := if s == RSP then Put(m, RAX, m.regs[RSP]) else m;
    assert m1.regs == Uniform(1);
    DifferentOffsets(1, o, if s == RSP then RAX else s);
    StoreRefuted(wide, d, o, s, Uniform(1), m1);
  }

  lemma DifferentOffsets(x: Word, o: int, p: int)
    requires IsInt32(o) && IsInt32(p) && o != p
    ensures Offset(x, p) != Offset(x, o)
  {
    var y := Offset(x, o);
    assert y == if x + o < 0 then x + o + TWO_64 else if x + o < TWO_64 then x + o else x + o - TWO_64;
  }

  /** A store of RSP at RAX: the MOV of RSP has replaced the base. */
  lemma StoreAtLostBase(wide: bool)
    ensures !Correct(Op.Store(wide, RAX, 0, RSP))
  {
    var regs := Uniform(1)[RAX := 0x1000];
    StoreRefuted(wide, RAX, 0, RSP, regs, Put(MachineOf(regs), RAX, 1));
  }

  lemma UnsoundStore(wide: bool, d: IrReg, o: int, s: IrReg)
    requires IsInt32(o) && !Sound(Op.Store(wide, d, o, s))
    ensures !Correct(Op.Store(wide, d, o, s))
  {
    if d == R0 || s == R0 {
      StoreWithR0(wide, d, o, s);
    } else if !PlainBase(d) {
      StoreToSibBase(wide, d, o, s);
    } else if s == RSP && o == 0 {
      StoreAtLostBase(wide);
    } else {
      StoreElsewhere(wide, d, o, s);
    }
  }
}

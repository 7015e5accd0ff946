/** The guest processor: register file, program counter, instruction handlers and dispatch. */
module Cpu {
  import opened Bits
  import opened InstructionDecode

  const GPR_COUNT: nat := 32

  datatype Status = Ok | InvalidRegister | UnalignedPc | NotImplemented | IntegerOverflow

  /** The architectural state the handlers read and write. */
  datatype State = State(gpr: seq<Word>, pc: Word)

  predicate WellFormed(st: State) {
    |st.gpr| == GPR_COUNT
  }

  // ----- The register file -----

  class Mips64Cpu {
    const gpr: array<Word>
    var pc: Word
    var hi: Word
    var lo: Word

    ghost predicate Valid() {
      gpr.Length == GPR_COUNT
    }

    function View(): State
      reads this, gpr
    {
      State(gpr[..], pc)
    }

    constructor (resetPc: Word)
      ensures Valid() && fresh(gpr) && View() == State(seq(GPR_COUNT, _ => 0), resetPc) && hi == lo == 0
    {
      gpr := new Word[GPR_COUNT](_ => 0);
      pc, hi, lo := resetPc, 0, 0;
    }

    /** mips64_cpu_reset: clear everything, then set the program counter. */
    method Reset(resetPc: Word)
      requires Valid()
      modifies this, gpr
      ensures View() == State(seq(GPR_COUNT, _ => 0), resetPc) && hi == lo == 0
    {
      forall i | 0 <= i < gpr.Length {
        gpr[i] := 0;
      }
      hi, lo := 0, 0;
      pc := resetPc;
    }

    /** mips64_cpu_mips_get_gpr. */
    method GetGpr(index: Word32) returns (status: Status, value: Option<Word>)
      requires Valid()
      ensures status == (if index < 32 then Ok else InvalidRegister)
      ensures value == if index >= 32 then None else if index == 0 then Some(0) else Some(View().gpr[index])
    {
      if index >= GPR_COUNT {
        return InvalidRegister, None;
      }
      if index == 0 {
        value := Some(0);
      } else {
        value := Some(gpr[index]);
      }
      status := Ok;
    }

    /** mips64_cpu_set_gpr. */
    method SetGpr(index: Word32, value: Word) returns (status: Status)
      requires Valid()
      modifies gpr
      ensures status == if index < 32 then Ok else InvalidRegister
      ensures View() == if index < 32 then Put(old(View()), index, value) else old(View())
    {
      if index >= GPR_COUNT {
        return InvalidRegister;
      }
      if index != 0 {
        gpr[index] := value;
      }
      gpr[0] := 0;
      status := Ok;
    }

    /** mips64_cpu_set_pc. */
    method SetPc(value: Word) returns (status: Status)
      requires Valid()
      modifies `pc
      ensures status == if value % 4 == 0 then Ok else UnalignedPc
      ensures pc == if value % 4 == 0 then value else old(pc)
    {
      LowTwoBits(value);
      if BitAnd(value, 3) != 0 {
        return UnalignedPc;
      }
      pc := value;
      status := Ok;
    }

    // ----- Handlers -----

    method ExecuteNop(d: Fields) returns (status: Status)
      requires Valid() && InRange(d)
      modifies this, gpr
      ensures Stepped(Nop, d, status)
    {
      pc := (pc + 4) % TWO_64;
      status := Ok;
    }

    method ExecuteDaddiu(d: Fields) returns (status: Status)
      requires Valid() && InRange(d)
      modifies this, gpr
      ensures Stepped(Daddiu, d, status)
    {
      var source := gpr[d.rs];
      var immediate := SignExtend16(d.immediate);
      var result := Plus(source, immediate);
      if d.rt != 0 {
        gpr[d.rt] := result;
      }
      gpr[0] := 0;
      pc := (pc + 4) % TWO_64;
      status := Ok;
    }

    method ExecuteAddu(d: Fields) returns (status: Status)
      requires Valid() && InRange(d)
      modifies this, gpr
      ensures Stepped(Addu, d, status)
    {
      var l := Signed32(gpr[d.rs]);
      var r := Signed32(gpr[d.rt]);
      var temp := l + r;
      if d.rd != 0 {
        gpr[d.rd] := Wrap(Signed32(temp));
      }
      gpr[0] := 0;
      pc := (pc + 4) % TWO_64;
      status := Ok;
    }

    method ExecuteAdd(d: Fields) returns (status: Status)
      requires Valid() && InRange(d)
      modifies this, gpr
      ensures Stepped(Add, d, status)
    {
      var l := Signed32(gpr[d.rs]);
      var r := Signed32(gpr[d.rt]);
      var temp := l + r;
      if temp > TWO_31 - 1 || temp < -TWO_31 {
        return IntegerOverflow;
      }
      if d.rd != 0 {
        gpr[d.rd] := Wrap(Signed32(temp));
      }
      gpr[0] := 0;
      pc := (pc + 4) % TWO_64;
      status := Ok;
    }

    method ExecuteDaddu(d: Fields) returns (status: Status)
      requires Valid() && InRange(d)
      modifies this, gpr
      ensures Stepped(Daddu, d, status)
    {
      var result := Plus(gpr[d.rs], gpr[d.rt]);
      if d.rd != 0 {
        gpr[d.rd] := result;
      }
      gpr[0] := 0;
      pc := (pc + 4) % TWO_64;
      status := Ok;
    }

    /** mips64_cpu_execute with mips64_execute_special: only DADDU and DADDIU are dispatched. */
    method Execute(d: Fields) returns (status: Status)
      requires Valid() && InRange(d)
      modifies this, gpr
      ensures match Dispatch(d)
              case Some(h) => Stepped(h, d, status)
              case None => status == NotImplemented && View() == old(View()) && hi == old(hi) && lo == old(lo)
    {
      if d.raw == 0 {
        status := ExecuteNop(d);
      } else if d.opcode == SPECIAL {
        if d.funct == FUNCT_DADDU {
          status := ExecuteDaddu(d);
        } else {
          status := NotImplemented;
        }
      } else if d.opcode == OPCODE_DADDIU {
        status := ExecuteDaddiu(d);
      } else {
        status := NotImplemented;
      }
    }

    /** One handler call: status and state are those of Step, and HI and LO are untouched. */
    twostate predicate Stepped(h: Handler, d: Fields, status: Status)
      requires Valid() && InRange(d)
      reads this, gpr
    {
      var (s, st) := Step(h, d, old(View()));
      status == s && View() == st && hi == old(hi) && lo == old(lo)
    }
  }

  lemma LowTwoBits(x: Word)
    ensures BitAnd(x, 3) == x % 4
  {
    assert Pow2(2) == 4;
    MaskIsMod(2, x);
  }

  // ----- What the handlers compute -----

  datatype Handler = Nop | Daddiu | Addu | Add | Daddu

  const SPECIAL: nat := 0x00
  const FUNCT_DADDU: nat := 0x2D
  const OPCODE_DADDIU: nat := 0x19

  function Dispatch(d: Fields): Option<Handler> {
    if d.raw == 0 then Some(Nop)
    else if d.opcode == SPECIAL then (if d.funct == FUNCT_DADDU then Some(Daddu) else None)
    else if d.opcode == OPCODE_DADDIU then Some(Daddiu)
    else None
  }

  function Plus(x: int, y: int): Word {
    Wrap(x + y)
  }

  /** A halfword read as int16_t and widened. */
  function SignExtend16(x: Word16): Word {
    Wrap(if x < 0x8000 then x else x - 0x1_0000)
  }

  /** Register write: register 0 stays 0. */
  function Put(st: State, r: nat, v: Word): (st': State)
    requires WellFormed(st) && r < GPR_COUNT
    ensures WellFormed(st')
  {
    st.(gpr := (if r != 0 then st.gpr[r := v] else st.gpr)[0 := 0])
  }

  /** The register a handler names as its destination. */
  function Target(h: Handler, d: Fields): nat {
    if h == Daddiu then d.rt else d.rd
  }

  /** The exact sum of the low words of the two operands, as signed numbers. */
  function WordSum(d: Fields, st: State): int
    requires WellFormed(st) && InRange(d)
  {
    Signed32(st.gpr[d.rs]) + Signed32(st.gpr[d.rt])
  }

  /** The value a handler writes. */
  function Result(h: Handler, d: Fields, st: State): Word
    requires WellFormed(st) && InRange(d)
  {
    match h
    case Nop => 0
    case Daddiu => Plus(st.gpr[d.rs], SignExtend16(d.immediate))
    case Daddu => Plus(st.gpr[d.rs], st.gpr[d.rt])
    case Addu => Wrap(Signed32(WordSum(d, st)))
    case Add => Wrap(Signed32(WordSum(d, st)))
  }

  predicate Traps(h: Handler, d: Fields, st: State)
    requires WellFormed(st) && InRange(d)
  {
    h == Add && !(-TWO_31 <= WordSum(d, st) < TWO_31)
  }

  function Step(h: Handler, d: Fields, st: State): (r: (Status, State))
    requires WellFormed(st) && InRange(d)
    ensures WellFormed(r.1)
  {
    if Traps(h, d, st) then (IntegerOverflow, st)
    else
      var next := st.(pc := Plus(st.pc, 4));
      (Ok, if h == Nop then next else Put(next, Target(h, d), Result(h, d, st)))
  }

  // ----- Runs -----

  /** A decoded word handed to a handler; the immediate is arbitrary. */
  datatype Call = Call(h: Handler, raw: Word32, immediate: Word16)

  function FieldsOf(c: Call): (d: Fields)
    ensures InRange(d)
  {
    DecodeFields(c.raw).(immediate := c.immediate)
  }

  /** The statuses of a run and its final state. */
  function Run(calls: seq<Call>, st: State): (r: (seq<Status>, State))
    requires WellFormed(st)
    ensures WellFormed(r.1) && |r.0| == |calls|
  {
    if calls == [] then ([], st)
    else
      var n := |calls| - 1;
      var (before, mid) := Run(calls[..n], st);
      var (status, last) := Step(calls[n].h, FieldsOf(calls[n]), mid);
      (before + [status], last)
  }

  function OkCount(statuses: seq<Status>): nat {
    if statuses == [] then 0
    else OkCount(statuses[..|statuses| - 1]) + if statuses[|statuses| - 1] == Ok then 1 else 0
  }

  /** A step changes at most its target register, keeps register 0 at 0, advances the program counter by
      four when it succeeds, and changes nothing when it traps. */
  lemma StepFrame(h: Handler, d: Fields, st: State)
    requires WellFormed(st) && InRange(d) && st.gpr[0] == 0
    ensures var (status, st') := Step(h, d, st);
            && st'.gpr[0] == 0
            && (forall r :: 0 <= r < GPR_COUNT && r != Target(h, d) ==> st'.gpr[r] == st.gpr[r])
            && (status == Ok ==> st'.pc == Plus(st.pc, 4))
            && (status != Ok ==> status == IntegerOverflow && st' == st)
  {
  }

  /** Register 0 is 0, the counter has moved from pc by four for each success and is aligned, and every
      status is Ok or a trap. */
  ghost predicate Consistent(pc: Word, statuses: seq<Status>, st: State) {
    && WellFormed(st) && st.gpr[0] == 0
    && st.pc == Wrap(pc + 4 * OkCount(statuses)) && st.pc % 4 == 0
    && forall k :: 0 <= k < |statuses| ==> statuses[k] == Ok || statuses[k] == IntegerOverflow
  }

  /** Over any run from register 0 = 0 and an aligned counter. */
  lemma {:induction false} RunInvariant(calls: seq<Call>, st: State)
    requires WellFormed(st) && st.gpr[0] == 0 && st.pc % 4 == 0
    ensures Consistent(st.pc, Run(calls, st).0, Run(calls, st).1)
  {
    if calls == [] {
    } else {
      var n := |calls| - 1;
      RunInvariant(calls[..n], st);
      ConsistentStep(st.pc, Run(calls[..n], st).0, Run(calls[..n], st).1, calls[n].h, FieldsOf(calls[n]));
    }
  }

  lemma ConsistentStep(pc: Word, statuses: seq<Status>, st: State, h: Handler, d: Fields)
    requires Consistent(pc, statuses, st) && InRange(d) && pc % 4 == 0
    ensures Consistent(pc, statuses + [Step(h, d, st).0], Step(h, d, st).1)
  {
    StepFrame(h, d, st);
    ConsistentSnoc(pc, statuses, st, Step(h, d, st).0, Step(h, d, st).1);
  }

  lemma ConsistentSnoc(pc: Word, statuses: seq<Status>, st: State, status: Status, st': State)
    requires Consistent(pc, statuses, st) && pc % 4 == 0
    requires WellFormed(st') && st'.gpr[0] == 0 && (status == Ok || status == IntegerOverflow)
    requires st'.pc == if status == Ok then Plus(st.pc, 4) else st.pc
    ensures Consistent(pc, statuses + [status], st')
  {
    OkCountSnoc(statuses, status);
    AdvanceCounter(pc, OkCount(statuses));
    AdvanceCounter(pc, OkCount(statuses + [status]));
  }

  lemma OkCountSnoc(statuses: seq<Status>, s: Status)
    ensures OkCount(statuses + [s]) == OkCount(statuses) + if s == Ok then 1 else 0
  {
    assert (statuses + [s])[..|statuses|] == statuses;
  }

  lemma AdvanceCounter(pc: Word, k: nat)
    requires pc % 4 == 0
    ensures Plus(Wrap(pc + 4 * k), 4) == Wrap(pc + 4 * (k + 1))
    ensures Wrap(pc + 4 * k) % 4 == 0
  {
    NextWrap(pc + 4 * k);
    WrapAligned(pc / 4 + k);
    assert pc + 4 * k == 4 * (pc / 4 + k);
  }

  lemma NextWrap(x: nat)
    ensures Plus(Wrap(x), 4) == Wrap(x + 4)
  {
    var q, r := x / TWO_64, x % TWO_64;
    if r + 4 < TWO_64 {
      DivModUnique(x + 4, TWO_64, q, r + 4);
    } else {
      DivModUnique(x + 4, TWO_64, q + 1, r + 4 - TWO_64);
    }
  }

  lemma WrapAligned(y: nat)
    ensures Wrap(4 * y) % 4 == 0
  {
    var q, r := 4 * y / TWO_64, Wrap(4 * y);
    assert 4 * y == TWO_64 * q + r;
    DivModUnique(r, 4, y - 0x4000_0000_0000_0000 * q, 0);
  }

  // ----- Truncation to 32 bits -----

  function Low(x: int): Word32 {
    x % TWO_32
  }

  /** Same counter, and registers that agree in their low words. */
  predicate SameLow(s: State, t: State) {
    && WellFormed(s) && WellFormed(t) && s.pc == t.pc
    && forall r :: 0 <= r < GPR_COUNT ==> Low(s.gpr[r]) == Low(t.gpr[r])
  }

  /** Multiples of 2^32 do not reach the low word. */
  lemma LowMinus(s: int, k: int)
    ensures Low(s - TWO_32 * k) == Low(s)
  {
    DivModUnique(s - TWO_32 * k, TWO_32, s / TWO_32 - k, s % TWO_32);
  }

  lemma LowOfSum(x: Word, y: Word)
    ensures Low(Plus(x, y)) == Low(Low(x) + Low(y))
  {
    var s := x + y;
    assert Low(Plus(x, y)) == Low(s) by {
      assert Plus(x, y) == s || Plus(x, y) == s - TWO_32 * TWO_32;
      LowMinus(s, TWO_32);
    }
    assert Low(x) + Low(y) == s - TWO_32 * (x / TWO_32 + y / TWO_32);
    LowMinus(s, x / TWO_32 + y / TWO_32);
  }

  lemma SignedFromLow(x: Word, y: Word)
    requires Low(x) == Low(y)
    ensures Signed32(x) == Signed32(y)
  {
  }

  lemma ResultLow(h: Handler, d: Fields, s: State, t: State)
    requires InRange(d) && SameLow(s, t)
    ensures Low(Result(h, d, s)) == Low(Result(h, d, t)) && Traps(h, d, s) == Traps(h, d, t)
  {
    SignedFromLow(s.gpr[d.rs], t.gpr[d.rs]);
    SignedFromLow(s.gpr[d.rt], t.gpr[d.rt]);
    match h
    case Daddiu =>
      LowOfSum(s.gpr[d.rs], SignExtend16(d.immediate));
      LowOfSum(t.gpr[d.rs], SignExtend16(d.immediate));
    case Daddu =>
      LowOfSum(s.gpr[d.rs], s.gpr[d.rt]);
      LowOfSum(t.gpr[d.rs], t.gpr[d.rt]);
    case _ =>
  }

  lemma StepLow(h: Handler, d: Fields, s: State, t: State)
    requires InRange(d) && SameLow(s, t)
    ensures Step(h, d, s).0 == Step(h, d, t).0 && SameLow(Step(h, d, s).1, Step(h, d, t).1)
  {
    ResultLow(h, d, s, t);
  }

  /** Truncation is a homomorphism over runs: low words, counter and every trap decision depend only on
      the low words and the counter at the start. */
  lemma {:induction false} RunLow(calls: seq<Call>, s: State, t: State)
    requires SameLow(s, t)
    ensures Run(calls, s).0 == Run(calls, t).0 && SameLow(Run(calls, s).1, Run(calls, t).1)
  {
    if calls == [] {
    } else {
      var n := |calls| - 1;
      RunLow(calls[..n], s, t);
      StepLow(calls[n].h, FieldsOf(calls[n]), Run(calls[..n], s).1, Run(calls[..n], t).1);
    }
  }

  /** A word that equals the sign extension of its low half. */
  predicate IsSignExtended(x: Word) {
    x == Wrap(Signed32(x))
  }

  lemma SignExtensionOf(v: int)
    ensures IsSignExtended(Wrap(Signed32(v))) && Low(Wrap(Signed32(v))) == Low(v)
  {
    var l := Low(v);
    assert Wrap(Signed32(v)) == if l < TWO_31 then l else l - TWO_32 + TWO_64;
  }

  /** The registers that ADD or ADDU wrote last, over a run. */
  function WordRegisters(calls: seq<Call>, st: State): set<nat>
    requires WellFormed(st)
  {
    if calls == [] then {}
    else
      var n := |calls| - 1;
      var c := calls[n];
      var d := FieldsOf(c);
      var before := WordRegisters(calls[..n], st);
      if Run(calls, st).0[n] != Ok || c.h == Nop then before
      else if c.h == Add || c.h == Addu then before + {d.rd}
      else before - {Target(c.h, d)}
  }

  /** After any run, every register last written by ADD or ADDU holds a sign-extended word. */
  lemma {:induction false} WordResults(calls: seq<Call>, st: State)
    requires WellFormed(st)
    ensures forall r :: r in WordRegisters(calls, st) ==> r < GPR_COUNT && IsSignExtended(Run(calls, st).1.gpr[r])
  {
    if calls == [] {
    } else {
      var n := |calls| - 1;
      var c := calls[n];
      WordResults(calls[..n], st);
      WordStep(c.h, FieldsOf(c), Run(calls[..n], st).1);
    }
  }

  lemma WordStep(h: Handler, d: Fields, st: State)
    requires WellFormed(st) && InRange(d)
    ensures var (status, st') := Step(h, d, st);
            && (status == Ok && (h == Add || h == Addu) ==> IsSignExtended(st'.gpr[d.rd]))
            && (forall r :: 0 <= r < GPR_COUNT && (status != Ok || h == Nop || r != Target(h, d)) ==>
                  st'.gpr[r] == st.gpr[r] || st'.gpr[r] == 0)
            && IsSignExtended(0)
  {
    SignExtensionOf(WordSum(d, st));
  }

  /** ADD is ADDU with a trap: it stops exactly when the signed sum of the low words does not fit in 32
      bits, and otherwise does what ADDU does, writing the exact sum. */
  lemma AddIsTrappingAddu(d: Fields, st: State)
    requires WellFormed(st) && InRange(d)
    ensures var sum := WordSum(d, st);
            Step(Add, d, st) == if -TWO_31 <= sum < TWO_31 then Step(Addu, d, st) else (IntegerOverflow, st)
    ensures -TWO_31 <= WordSum(d, st) < TWO_31 && d.rd != 0 ==>
              Signed(Step(Add, d, st).1.gpr[d.rd]) == WordSum(d, st)
  {
    var sum := WordSum(d, st);
    if -TWO_31 <= sum < TWO_31 {
      assert Signed32(sum) == sum;
      assert Wrap(sum) == if sum >= 0 then sum else sum + TWO_64;
    }
  }

  // ----- The handlers in numbers -----

  /** The low word of x as a two's complement number. */
  function LowNumber(x: Word): int {
    var low := x % 0x1_0000_0000;
    if low < 0x8000_0000 then low else low - 0x1_0000_0000
  }

  /** v as a word of two's complement. */
  function AsWord(v: int): Word {
    v % 0x1_0000_0000_0000_0000
  }

  /** A step that succeeds with v in register r and moves the counter on by four. */
  predicate Writes(r: (Status, State), st: State, target: nat, v: Word)
    requires WellFormed(st) && WellFormed(r.1) && target < 32
  {
    && r.0 == Ok && r.1.pc == AsWord(st.pc + 4)
    && (target != 0 ==> r.1.gpr == st.gpr[target := v][0 := 0]) && (target == 0 ==> r.1.gpr == st.gpr[0 := 0])
  }

  /** DADDIU adds the immediate as a signed halfword. */
  lemma DaddiuLaw(d: Fields, st: State)
    requires WellFormed(st) && InRange(d)
    ensures var i := if d.immediate < 0x8000 then d.immediate else d.immediate - 0x1_0000;
            Writes(Step(Daddiu, d, st), st, d.rt, AsWord(st.gpr[d.rs] + i))
  {
    WrapOfWrap(st.gpr[d.rs], if d.immediate < 0x8000 then d.immediate else d.immediate - 0x1_0000);
  }

  lemma WrapOfWrap(x: Word, i: int)
    requires -0x8000 <= i < 0x8000
    ensures Wrap(x + Wrap(i)) == AsWord(x + i)
  {
    assert Wrap(i) == if i >= 0 then i else i + TWO_64;
  }

  /** DADDIU by i and then by 2^16 - i on one register gives it back, unless i is 2^15. */
  lemma DaddiuUndone(d: Fields, e: Fields, st: State)
    requires WellFormed(st) && InRange(d) && InRange(e) && d.rs == d.rt == e.rs == e.rt != 0
    requires d.immediate != 0 && e.immediate == 0x1_0000 - d.immediate
    ensures Step(Daddiu, e, Step(Daddiu, d, st).1).1.gpr[d.rt] == st.gpr[d.rt] <==> d.immediate != 0x8000
  {
    var i := if d.immediate < 0x8000 then d.immediate else d.immediate - 0x1_0000;
    var j := if e.immediate < 0x8000 then e.immediate else e.immediate - 0x1_0000;
    var st1 := Step(Daddiu, d, st).1;
    DaddiuLaw(d, st);
    DaddiuLaw(e, st1);
    TwoSums(st.gpr[d.rt], i, j);
  }

  lemma TwoSums(x: Word, i: int, j: int)
    requires -0x8000 <= i < 0x8000 && -0x8000 <= j < 0x8000
    ensures AsWord(AsWord(x + i) + j) == x <==> i + j == 0
  {
    var y := AsWord(x + i);
    assert y == if x + i < 0 then x + i + TWO_64 else if x + i < TWO_64 then x + i else x + i - TWO_64;
    assert AsWord(y + j) == if y + j < 0 then y + j + TWO_64 else if y + j < TWO_64 then y + j else y + j - TWO_64;
  }

  /** DADDU adds modulo 2^64: the result less one operand is the other. */
  lemma DadduLaw(d: Fields, st: State)
    requires WellFormed(st) && InRange(d)
    ensures var v := AsWord(st.gpr[d.rs] as int + st.gpr[d.rt]);
            Writes(Step(Daddu, d, st), st, d.rd, v) && AsWord(v - st.gpr[d.rt]) == st.gpr[d.rs]
  {
    var x, y := st.gpr[d.rs], st.gpr[d.rt];
    assert AsWord(x + y) == if x + y < TWO_64 then x + y else x + y - TWO_64;
  }

  /** ADDU adds the low words and sign-extends the low word of the sum. */
  lemma AdduLaw(d: Fields, st: State)
    requires WellFormed(st) && InRange(d)
    ensures var low := (st.gpr[d.rs] % 0x1_0000_0000 + st.gpr[d.rt] % 0x1_0000_0000) % 0x1_0000_0000;
            Writes(Step(Addu, d, st), st, d.rd, if low < 0x8000_0000 then low else low + 0xFFFF_FFFF_0000_0000)
  {
    LowOfNumbers(st.gpr[d.rs], st.gpr[d.rt]);
  }

  lemma LowOfNumbers(x: Word, y: Word)
    ensures var low := (x % 0x1_0000_0000 + y % 0x1_0000_0000) % 0x1_0000_0000;
            Wrap(Signed32(Signed32(x) + Signed32(y))) == if low < 0x8000_0000 then low else low + 0xFFFF_FFFF_0000_0000
  {
    var a, b := x % TWO_32, y % TWO_32;
    var low := (a + b) % TWO_32;
    assert Low(Signed32(x) + Signed32(y)) == low by {
      LowMinus(a + b, (if a < TWO_31 then 0 else 1) + if b < TWO_31 then 0 else 1);
    }
  }

  /** ADD stops without a trace if the signed sum of the low words leaves 32 bits, and writes it otherwise. */
  lemma AddLaw(d: Fields, st: State)
    requires WellFormed(st) && InRange(d)
    ensures var sum := LowNumber(st.gpr[d.rs]) + LowNumber(st.gpr[d.rt]);
            if sum < -0x8000_0000 || sum > 0x7FFF_FFFF then Step(Add, d, st) == (IntegerOverflow, st)
            else Writes(Step(Add, d, st), st, d.rd, AsWord(sum))
  {
    var sum := LowNumber(st.gpr[d.rs]) + LowNumber(st.gpr[d.rt]);
    assert WordSum(d, st) == sum;
    if -TWO_31 <= sum < TWO_31 {
      FitsInWord(sum);
    }
  }

  lemma FitsInWord(v: int)
    requires -TWO_31 <= v < TWO_31
    ensures Signed32(v) == v
  {
  }

  /** NOP moves the counter on and does nothing else. */
  lemma NopLaw(d: Fields, st: State)
    requires WellFormed(st) && InRange(d)
    ensures Step(Nop, d, st) == (Ok, st.(pc := AsWord(st.pc + 4)))
  {
  }

  /** Which instruction words the dispatcher takes, by their bits: 0, those with opcode 0 and function 0x2D,
      and those with opcode 0x19. */
  lemma DispatchOfWords(raw: Word32)
    ensures Dispatch(DecodeFields(raw))
         == if raw == 0 then Some(Nop)
            else if raw < 0x400_0000 then (if raw % 64 == 0x2D then Some(Daddu) else None)
            else if 0x6400_0000 <= raw < 0x6800_0000 then Some(Daddiu)
            else None
  {
  }
}

/** Splitting a 32-bit guest instruction into its fields. */
module InstructionDecode {
  import opened Bits
  import opened ByteOrder

  /** The fields the decoder fills in. */
  datatype Fields = Fields(raw: Word32, opcode: nat, rs: nat, rt: nat, rd: nat, shiftAmount: nat, funct: nat,
                           immediate: Word16, target: Word32)

  /** Register numbers are array indices. */
  predicate InRange(f: Fields) {
    f.opcode < 64 && f.rs < 32 && f.rt < 32 && f.rd < 32 && f.shiftAmount < 32 && f.funct < 64
  }

  /** The bit ranges of the word that each field takes. The immediate mask keeps twelve bits and the
      target mask the whole word. */
  function DecodeFields(raw: Word32): (f: Fields)
    ensures InRange(f)
  {
    Fields(raw, raw / 0x400_0000, raw / 0x20_0000 % 32, raw / 0x1_0000 % 32, raw / 0x800 % 32, raw / 64 % 32,
           raw % 64, raw % 0x1000, raw)
  }

  /** The C expression (uint8_t)q & 0x1F. */
  lemma FiveBits(q: nat)
    ensures BitAnd(q % 256, 0x1F) == q % 32
  {
    assert Pow2(5) == 32 by { Pow2Values(); }
    MaskIsMod(5, q % 256);
    ModOfByte(q);
  }

  /** The C expression (uint8_t)q & 0x3F. */
  lemma SixBits(q: nat)
    ensures BitAnd(q % 256, 0x3F) == q % 64
  {
    assert Pow2(6) == 64 by { Pow2Values(); }
    MaskIsMod(6, q % 256);
    ModOfByte(q);
  }

  lemma ModOfByte(q: nat)
    ensures q % 256 % 32 == q % 32 && q % 256 % 64 == q % 64
  {
    var a, b := q / 256, q % 256;
    DivModUnique(q, 32, 8 * a + b / 32, b % 32);
    DivModUnique(q, 64, 4 * a + b / 64, b % 64);
  }

  lemma MaskKeepsLow(k: nat, p: nat, x: nat)
    requires p == Pow2(k)
    ensures BitAnd(x, p - 1) == x % p
  {
    MaskIsMod(k, x);
  }

  /** The masks that cut fields from the low end of the word. The last one keeps all of it. */
  lemma {:induction false} LowMasks(word: Word32)
    ensures BitAnd(word, 0x3F) == word % 64 && BitAnd(word, 0xFFF) == word % 0x1000
    ensures BitAnd(word, 0x3_FFFF_FFFF) == word
  {
    var six, twelve, all := 6, 12, 34;
    assert Pow2(six) == 64 && Pow2(twelve) == 0x1000 && Pow2(all) == 0x4_0000_0000 by { ShiftConstants(); }
    MaskKeepsLow(six, 64, word);
    MaskKeepsLow(twelve, 0x1000, word);
    MaskKeepsLow(all, 0x4_0000_0000, word);
    DivModUnique(word, 0x4_0000_0000, 0, word);
  }

  lemma Shifted(raw: Word32)
    ensures Shr(raw, 26) == raw / 0x400_0000 && Shr(raw, 21) == raw / 0x20_0000 && Shr(raw, 16) == raw / 0x1_0000
    ensures Shr(raw, 11) == raw / 0x800 && Shr(raw, 6) == raw / 64
  {
    ShiftConstants();
  }

  lemma ShiftConstants()
    ensures Pow2(5) == 32 && Pow2(6) == 64 && Pow2(11) == 0x800 && Pow2(12) == 0x1000 && Pow2(16) == 0x1_0000
    ensures Pow2(21) == 0x20_0000 && Pow2(26) == 0x400_0000 && Pow2(34) == 0x4_0000_0000
  {
    Pow2Values();
    assert Pow2(11) == 0x800 by { Pow2Sum(5, 6); }
    assert Pow2(12) == 0x1000 by { Pow2Sum(6, 6); }
    assert Pow2(21) == 0x20_0000 by { Pow2Sum(5, 16); }
    assert Pow2(26) == 0x400_0000 by { Pow2Sum(5, 21); }
    assert Pow2(34) == 0x4_0000_0000 by { Pow2Sum(6, 28); }
  }

  /** The decoded-instruction struct, filled by assignment. `offset` belongs to it but is never set. */
  class Decoded {
    var raw: Word32
    var opcode: nat
    var rs: nat
    var rt: nat
    var rd: nat
    var shiftAmount: nat
    var funct: nat
    var immediate: Word16
    var offset: Word16
    var target: Word32

    function View(): Fields
      reads this
    {
      Fields(raw, opcode, rs, rt, rd, shiftAmount, funct, immediate, target)
    }

    constructor () {
      raw, opcode, rs, rt, rd := 0, 0, 0, 0, 0;
      shiftAmount, funct, immediate, offset, target := 0, 0, 0, 0, 0;
    }

    /** The expression the five-bit fields share. */
    static method FiveBitField(word: Word32, k: nat) returns (f: nat)
      ensures f == Shr(word, k) % 32
    {
      FiveBits(Shr(word, k));
      f := BitAnd(Shr(word, k) % 256, 0x1F);
    }

    /** The six-bit field at the top. */
    static method OpcodeField(word: Word32) returns (f: nat)
      ensures f == Shr(word, 26) % 64
    {
      SixBits(Shr(word, 26));
      f := BitAnd(Shr(word, 26) % 256, 0x3F);
    }

    /** mips64_decode_instruction. */
    method Decode(word: Word32)
      modifies this
      ensures View() == DecodeFields(word) && offset == old(offset)
    {
      raw := word;
      RegisterFields(word);
      LowMasks(word);
      funct := BitAnd(word, 0x3F);
      immediate := BitAnd(word, 0xFFF);
      target := BitAnd(word, 0x3_FFFF_FFFF);
    }

    /** The assignments that shift a field down. */
    method RegisterFields(word: Word32)
      modifies `opcode, `rs, `rt, `rd, `shiftAmount
      ensures opcode == word / 0x400_0000 && rs == word / 0x20_0000 % 32 && rt == word / 0x1_0000 % 32
      ensures rd == word / 0x800 % 32 && shiftAmount == word / 64 % 32
    {
      Shifted(word);
      assert word / 0x400_0000 < 64;
      opcode := OpcodeField(word);
      rs := FiveBitField(word, 21);
      rt := FiveBitField(word, 16);
      rd := FiveBitField(word, 11);
      shiftAmount := FiveBitField(word, 6);
    }
  }

  // ----- Nothing is lost -----

  /** The six fields of the R format, shifted into place and ORed together. */
  function Reassemble(f: Fields): nat {
    BitOr(BitOr(BitOr(BitOr(BitOr(Shl(f.opcode, 26), Shl(f.rs, 21)), Shl(f.rt, 16)), Shl(f.rd, 11)),
                Shl(f.shiftAmount, 6)), f.funct)
  }

  /** ORing a field of n bits below a value that starts where the field ends. */
  lemma OrField(hi: nat, f: nat, k: nat, n: nat, top: nat)
    requires f < Pow2(n) && top == k + n
    ensures BitOr(Shl(hi, top), Shl(f, k)) == Shl(Pow2(n) * hi + f, k)
  {
    var p, q := Pow2(k), Pow2(n);
    assert Pow2(top) == p * q by { Pow2Sum(k, n); }
    assert f * p < p * q by { MulAtLeast(p, q, f); }
    assert BitOr(Shl(hi, top), Shl(f, k)) == f * p + hi * (p * q) by { OrShl(f * p, hi, top); }
    FieldSum(hi, f, p, q);
  }

  lemma FieldSum(hi: int, f: int, p: int, q: int)
    ensures f * p + hi * (p * q) == (q * hi + f) * p
  {
    assert hi * (p * q) == (q * hi) * p;
  }

  /** The value of the reassembled word. */
  function FieldValue(f: Fields): nat {
    ((((f.opcode * 32 + f.rs) * 32 + f.rt) * 32 + f.rd) * 32 + f.shiftAmount) * 64 + f.funct
  }

  lemma ReassembleValue(f: Fields)
    requires InRange(f)
    ensures Reassemble(f) == FieldValue(f)
  {
    ShiftConstants();
    var a := 32 * f.opcode + f.rs;
    var b := 32 * a + f.rt;
    var c := 32 * b + f.rd;
    var d := 32 * c + f.shiftAmount;
    assert BitOr(Shl(f.opcode, 26), Shl(f.rs, 21)) == Shl(a, 21) by { OrField(f.opcode, f.rs, 21, 5, 26); }
    assert BitOr(Shl(a, 21), Shl(f.rt, 16)) == Shl(b, 16) by { OrField(a, f.rt, 16, 5, 21); }
    assert BitOr(Shl(b, 16), Shl(f.rd, 11)) == Shl(c, 11) by { OrField(b, f.rd, 11, 5, 16); }
    assert BitOr(Shl(c, 11), Shl(f.shiftAmount, 6)) == Shl(d, 6) by { OrField(c, f.shiftAmount, 6, 5, 11); }
    assert BitOr(Shl(d, 6), f.funct) == Shl(d, 6) + f.funct by { OrShl(f.funct, d, 6); }
  }

  /** For every word, its R-format fields put back together give the word. */
  lemma DecodeLosesNothing(raw: Word32)
    ensures Reassemble(DecodeFields(raw)) == raw
  {
    ReassembleValue(DecodeFields(raw));
    var q6 := raw / 64;
    var q11 := q6 / 32;
    var q16 := q11 / 32;
    var q21 := q16 / 32;
    HighFields(raw);
    assert raw == 64 * q6 + raw % 64 && q6 == 32 * q11 + q6 % 32 && q11 == 32 * q16 + q11 % 32;
    assert q16 == 32 * q21 + q16 % 32 && q21 == 32 * (q21 / 32) + q21 % 32;
  }

  /** The six R-format fields agree. */
  predicate SameFormat(f: Fields, g: Fields) {
    && f.opcode == g.opcode && f.rs == g.rs && f.rt == g.rt
    && f.rd == g.rd && f.shiftAmount == g.shiftAmount && f.funct == g.funct
  }

  /** Every combination of fields in range comes from exactly the word they reassemble to. */
  lemma DecodeIsOnto(f: Fields)
    requires InRange(f)
    ensures Reassemble(f) < TWO_32 && SameFormat(DecodeFields(Reassemble(f)), f)
  {
    ReassembleValue(f);
    FieldValueBound(f);
    var a := 32 * f.opcode + f.rs;
    var b := 32 * a + f.rt;
    var c := 32 * b + f.rd;
    var d := 32 * c + f.shiftAmount;
    FieldsOfSum(FieldValue(f), d, f.funct);
    assert d / 32 == c && d % 32 == f.shiftAmount by { FieldBelow(c, f.shiftAmount); }
    assert c / 32 == b && c % 32 == f.rd by { FieldBelow(b, f.rd); }
    assert b / 32 == a && b % 32 == f.rt by { FieldBelow(a, f.rt); }
    assert a / 32 == f.opcode && a % 32 == f.rs by { FieldBelow(f.opcode, f.rs); }
  }

  lemma FieldValueBound(f: Fields)
    requires InRange(f)
    ensures FieldValue(f) < TWO_32
  {
  }

  /** The fields of a word by repeated division of what lies above the lowest one. */
  lemma FieldsOfSum(raw: Word32, d: nat, funct: nat)
    requires raw == 64 * d + funct && funct < 64
    ensures var f := DecodeFields(raw);
            && f.funct == funct && f.shiftAmount == d % 32 && f.rd == d / 32 % 32 && f.rt == d / 32 / 32 % 32
            && f.rs == d / 32 / 32 / 32 % 32 && f.opcode == d / 32 / 32 / 32 / 32
  {
    DivModUnique(raw, 64, d, funct);
    HighFields(raw);
  }

  lemma FieldBelow(hi: nat, f: nat)
    requires f < 32
    ensures (32 * hi + f) / 32 == hi && (32 * hi + f) % 32 == f
  {
  }

  /** Dividing by 2^6, then repeatedly by 2^5, reaches the start of each field. */
  lemma HighFields(raw: nat)
    ensures raw / 0x800 == raw / 64 / 32 && raw / 0x1_0000 == raw / 64 / 32 / 32
    ensures raw / 0x20_0000 == raw / 64 / 32 / 32 / 32 && raw / 0x400_0000 == raw / 64 / 32 / 32 / 32 / 32
  {
    DivDiv(raw, 64, 32);
    DivDiv(raw, 0x800, 32);
    DivDiv(raw, 0x1_0000, 32);
    DivDiv(raw, 0x20_0000, 32);
  }

  /** The decoded immediate is the instruction's low halfword exactly when bits 12 to 15 are clear. */
  lemma ImmediateExact(raw: Word32)
    ensures DecodeFields(raw).immediate == raw % TWO_16 <==> raw / 0x1000 % 16 == 0
  {
    var q := raw / 0x1000;
    assert raw % TWO_16 == 0x1000 * (q % 16) + raw % 0x1000;
  }
}

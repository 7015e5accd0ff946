/** Values as byte strings in either endianness, and the shift-and-OR expressions that build them. */
module ByteOrder {
  import opened Bits

  datatype Endian = Little | Big

  /** The value of a byte string read in the given byte order. */
  function Assemble(e: Endian, bs: seq<Byte>): nat {
    if e == Little then FromBytes(bs) else FromBytes(Reverse(bs))
  }

  /** The n bytes of v in the given byte order. */
  function Disassemble(e: Endian, v: int, n: nat): (bs: seq<Byte>)
    ensures |bs| == n
  {
    if e == Little then ToBytes(v, n) else Reverse(ToBytes(v, n))
  }

  lemma ReverseTwice(bs: seq<Byte>)
    ensures Reverse(Reverse(bs)) == bs
  {
  }

  lemma AssembleDisassemble(e: Endian, v: int, n: nat)
    requires 0 <= v < Pow256(n)
    ensures Assemble(e, Disassemble(e, v, n)) == v
  {
    BytesRoundTrip(v, n);
    ReverseTwice(ToBytes(v, n));
  }

  lemma DisassembleAssemble(e: Endian, bs: seq<Byte>)
    ensures Disassemble(e, Assemble(e, bs), |bs|) == bs
  {
    BytesRoundTripBack(bs);
    BytesRoundTripBack(Reverse(bs));
    ReverseTwice(bs);
  }

  lemma AssembleBound(e: Endian, bs: seq<Byte>)
    ensures Assemble(e, bs) < Pow256(|bs|)
  {
    FromBytesBound(bs);
    FromBytesBound(Reverse(bs));
  }

  /** Joining byte strings: the second is more significant in little endian, the first in big endian. */
  lemma AssembleConcat(e: Endian, a: seq<Byte>, b: seq<Byte>)
    ensures Assemble(e, a + b) == if e == Little then Assemble(e, a) + Pow256(|a|) * Assemble(e, b)
                                  else Pow256(|b|) * Assemble(e, a) + Assemble(e, b)
  {
    if e == Little {
      FromBytesConcat(a, b);
    } else {
      ReverseConcat(a, b);
      FromBytesConcat(Reverse(b), Reverse(a));
    }
  }

  lemma ReverseConcat(a: seq<Byte>, b: seq<Byte>)
    ensures Reverse(a + b) == Reverse(b) + Reverse(a)
  {
  }

  /** Byte i of a byte string. */
  lemma {:induction false} ToBytesAt(v: nat, n: nat, i: nat)
    requires i < n
    ensures ToBytes(v, n)[i] == v / Pow256(i) % 256
  {
    if i == 0 {
    } else {
      ToBytesAt(v / 256, n - 1, i - 1);
      DivDiv(v, 256, Pow256(i - 1));
    }
  }

  lemma DivDiv(v: nat, a: nat, b: nat)
    requires a > 0 && b > 0
    ensures a * b > 0 && v / a / b == v / (a * b)
  {
    var q, r := v / a, v % a;
    var q2, r2 := q / b, q % b;
    QuotientAtMost(v, a);
    MixedRadix(a, b, q2, r2, r);
    assert v == a * q + r && q == b * q2 + r2;
    DivModUnique(v, a * b, q2, a * r2 + r);
  }

  lemma MixedRadix(a: nat, b: nat, q: int, s: int, r: int)
    requires a > 0 && b > 0 && 0 <= s < b && 0 <= r < a
    ensures a * b > 0
    ensures a * (b * q + s) + r == (a * b) * q + (a * s + r)
    ensures 0 <= a * s + r < a * b
  {
    MulAtLeast(a, b, 0);
    MulAtLeast(a, b, s);
    if s > 0 {
      MulAtLeast(a, s, 0);
    }
    Distribute(a, b * q, s);
    Reassociate(a, b, q);
  }

  lemma Distribute(a: int, x: int, y: int)
    ensures a * (x + y) == a * x + a * y
  {
  }

  lemma Reassociate(a: int, b: int, c: int)
    ensures a * (b * c) == (a * b) * c
  {
  }

  // ----- Shifts and ORs -----

  /** The C expression (x >> k) & 0xFF. */
  function ByteOf(x: nat, k: nat): Byte {
    Pow2Values();
    MaskIsMod(8, Shr(x, k));
    BitAnd(Shr(x, k), 0xFF)
  }

  lemma ByteOfIsByte(v: nat, n: nat, i: nat)
    requires i < n
    ensures ByteOf(v, 8 * i) == ToBytes(v, n)[i]
  {
    ToBytesAt(v, n, i);
    Pow256IsPow2(i);
    Pow2Values();
    MaskIsMod(8, Shr(v, 8 * i));
  }

  lemma OrShl(a: nat, b: nat, k: nat)
    requires a < Pow2(k)
    ensures BitOr(a, Shl(b, k)) == a + Shl(b, k) && BitOr(Shl(b, k), a) == a + Shl(b, k)
  {
    DisjointOr(BitOp.Or, k, a, b);
  }

  /** `value |= bs[i] << 8 * i` for i from 0. */
  function PositionalOr(bs: seq<Byte>): nat {
    if bs == [] then 0
    else
      var n := |bs| - 1;
      BitOr(PositionalOr(bs[..n]), Shl(bs[n], 8 * n))
  }

  /** `value |= bs[i] << 8 * (top - i)` for i from 0. */
  function PositionalOrDown(bs: seq<Byte>, top: nat): nat
    requires |bs| <= top + 1
  {
    if bs == [] then 0
    else
      var n := |bs| - 1;
      BitOr(PositionalOrDown(bs[..n], top), Shl(bs[n], 8 * (top - n)))
  }

  /** `value <<= 8; value |= b` for each byte in order, in 64 bits. */
  function HornerOr(bs: seq<Byte>): nat {
    if bs == [] then 0
    else
      var n := |bs| - 1;
      BitOr(Wrap(Shl(HornerOr(bs[..n]), 8)), bs[n])
  }

  lemma PositionalNext(bs: seq<Byte>, i: nat)
    requires i < |bs|
    ensures PositionalOr(bs[..i + 1]) == BitOr(PositionalOr(bs[..i]), Shl(bs[i], 8 * i))
  {
    assert bs[..i + 1][..i] == bs[..i];
  }

  lemma PositionalDownNext(bs: seq<Byte>, i: nat)
    requires i < |bs| <= 8
    ensures PositionalOrDown(bs[..i + 1], 7) == BitOr(PositionalOrDown(bs[..i], 7), Shl(bs[i], 8 * (7 - i)))
  {
    assert bs[..i + 1][..i] == bs[..i];
  }

  lemma HornerNext(bs: seq<Byte>, i: nat)
    requires i < |bs|
    ensures HornerOr(bs[..i + 1]) == BitOr(Wrap(Shl(HornerOr(bs[..i]), 8)), bs[i])
  {
    assert bs[..i + 1][..i] == bs[..i];
  }

  lemma {:induction false} FromBytesSnoc(bs: seq<Byte>, b: Byte)
    ensures FromBytes(bs + [b]) == FromBytes(bs) + Pow256(|bs|) * b
  {
    FromBytesConcat(bs, [b]);
    assert FromBytes([b]) == b + 256 * FromBytes([]);
  }

  lemma {:induction false} PositionalIsLittle(bs: seq<Byte>)
    ensures PositionalOr(bs) == Assemble(Little, bs)
  {
    if bs == [] {
    } else {
      var n := |bs| - 1;
      var v, b := FromBytes(bs[..n]), bs[n];
      PositionalIsLittle(bs[..n]);
      PositionalStep(bs[..n], b);
      assert bs == bs[..n] + [b];
    }
  }

  lemma PositionalStep(bs: seq<Byte>, b: Byte)
    ensures BitOr(FromBytes(bs), Shl(b, 8 * |bs|)) == FromBytes(bs + [b])
  {
    var n, v := |bs|, FromBytes(bs);
    FromBytesBound(bs);
    Pow256IsPow2(n);
    OrShl(v, b, 8 * n);
    FromBytesSnoc(bs, b);
    assert Pow256(n) * b == b * Pow2(8 * n);
  }

  /** Appending a byte to a big-endian string multiplies its value by 256 and adds the byte. */
  lemma BigSnoc(bs: seq<Byte>, b: Byte)
    ensures Assemble(Big, bs + [b]) == 256 * Assemble(Big, bs) + b
  {
    assert Reverse(bs + [b]) == [b] + Reverse(bs);
    assert ([b] + Reverse(bs))[1..] == Reverse(bs);
  }

  lemma {:induction false} PositionalDownIsBig(bs: seq<Byte>, top: nat)
    requires |bs| <= top + 1
    ensures PositionalOrDown(bs, top) == Shl(Assemble(Big, bs), 8 * (top + 1 - |bs|))
  {
    if bs == [] {
    } else {
      var n := |bs| - 1;
      var k := 8 * (top - n);
      var v := Assemble(Big, bs[..n]);
      PositionalDownIsBig(bs[..n], top);
      assert bs == bs[..n] + [bs[n]];
      BigSnoc(bs[..n], bs[n]);
      ShlShift(v, bs[n], k);
    }
  }

  /** Placing a byte below a value shifted past it. */
  lemma ShlShift(v: nat, b: Byte, k: nat)
    ensures BitOr(Shl(v, k + 8), Shl(b, k)) == Shl(256 * v + b, k)
  {
    var p := Pow2(k);
    assert Pow2(k + 8) == 256 * p by {
      Pow2Values();
      Pow2Sum(k, 8);
    }
    assert b * p < 256 * p by { MulAtLeast(p, 256, b); }
    assert BitOr(Shl(v, k + 8), Shl(b, k)) == b * p + v * (256 * p) by { OrShl(b * p, v, k + 8); }
    SumOfShifts(v, b, p);
  }

  lemma SumOfShifts(v: int, b: int, p: int)
    ensures b * p + v * (256 * p) == (256 * v + b) * p
  {
    assert v * (256 * p) == 256 * (v * p);
  }

  lemma {:induction false} HornerIsBig(bs: seq<Byte>)
    requires |bs| <= 8
    ensures HornerOr(bs) == Assemble(Big, bs)
  {
    if bs == [] {
    } else {
      var n := |bs| - 1;
      var v := Assemble(Big, bs[..n]);
      HornerIsBig(bs[..n]);
      assert bs == bs[..n] + [bs[n]];
      BigSnoc(bs[..n], bs[n]);
      ShiftFits(bs[..n]);
      Pow2Values();
      OrShl(bs[n], v, 8);
    }
  }

  /** A value of at most seven bytes can be shifted by a byte without loss. */
  lemma ShiftFits(bs: seq<Byte>)
    requires |bs| <= 7
    ensures Wrap(Shl(Assemble(Big, bs), 8)) == Shl(Assemble(Big, bs), 8) == 256 * Assemble(Big, bs)
  {
    AssembleBound(Big, bs);
    Pow256Monotone(|bs|, 7);
    Pow256Values();
    Pow2Values();
    assert Pow256(8) == 256 * Pow256(7);
  }

  lemma {:induction false} Pow256Monotone(i: nat, j: nat)
    requires i <= j
    ensures Pow256(i) <= Pow256(j)
    decreases j
  {
    if i < j {
      Pow256Monotone(i, j - 1);
    }
  }

  /** The two ways of reading eight bytes, Horner's scheme and OR by position, give the same value in
      either byte order. */
  lemma ReadersAgree(bs: seq<Byte>)
    requires |bs| == 8
    ensures HornerOr(Reverse(bs)) == PositionalOr(bs)
    ensures HornerOr(bs) == PositionalOrDown(bs, 7)
  {
    HornerIsBig(bs);
    HornerIsBig(Reverse(bs));
    ReverseTwice(bs);
    PositionalIsLittle(bs);
    PositionalDownIsBig(bs, 7);
    assert Shl(Assemble(Big, bs), 0) == Assemble(Big, bs);
  }

  /** Switching the byte order of either 64-bit reader is reversing the bytes: each big-endian loop gives on
      the bytes what the little-endian loop gives on the reversed bytes. */
  lemma OtherOrderIsReversed(bs: seq<Byte>)
    requires |bs| == 8
    ensures PositionalOrDown(bs, 7) == PositionalOr(Reverse(bs)) == HornerOr(bs)
    ensures PositionalOr(bs) == PositionalOrDown(Reverse(bs), 7) == HornerOr(Reverse(bs))
  {
    ReadersAgree(bs);
    ReadersAgree(Reverse(bs));
    ReverseTwice(bs);
  }

  // ----- The fixed-width expressions -----

  lemma OneByteValue(e: Endian, b: Byte)
    ensures Assemble(e, [b]) == b
  {
    assert Reverse([b]) == [b];
    assert FromBytes([b]) == b + 256 * FromBytes([]);
  }

  lemma OneByteDisassembled(e: Endian, b: Byte)
    ensures Disassemble(e, b, 1) == [b]
  {
    assert ToBytes(b, 1) == [b % 256] + ToBytes(b / 256, 0);
    assert Reverse([b]) == [b];
  }

  lemma TwoByteValue(b0: Byte, b1: Byte)
    ensures BitOr(b0, Shl(b1, 8)) == Assemble(Little, [b0, b1])
    ensures BitOr(Shl(b0, 8), b1) == Assemble(Big, [b0, b1])
  {
    Pow2Values();
    OrShl(b0, b1, 8);
    OrShl(b1, b0, 8);
    LittleValue2(b0, b1);
    LittleValue2(b1, b0);
    assert Reverse([b0, b1]) == [b1, b0];
  }

  lemma LittleValue2(b0: Byte, b1: Byte)
    ensures FromBytes([b0, b1]) == b0 + 256 * b1
  {
    assert [b0, b1][1..] == [b1];
    assert FromBytes([b1]) == b1 + 256 * FromBytes([]);
  }

  lemma FourByteValue(b0: Byte, b1: Byte, b2: Byte, b3: Byte)
    ensures BitOr(BitOr(BitOr(b0, Shl(b1, 8)), Shl(b2, 16)), Shl(b3, 24)) == Assemble(Little, [b0, b1, b2, b3])
    ensures BitOr(BitOr(BitOr(Shl(b0, 24), Shl(b1, 16)), Shl(b2, 8)), b3) == Assemble(Big, [b0, b1, b2, b3])
  {
    Little4(b0, b1, b2, b3);
    Big4(b0, b1, b2, b3);
  }

  lemma Little4(b0: Byte, b1: Byte, b2: Byte, b3: Byte)
    ensures BitOr(BitOr(BitOr(b0, Shl(b1, 8)), Shl(b2, 16)), Shl(b3, 24)) == Assemble(Little, [b0, b1, b2, b3])
  {
    PositionalIsLittle([b0, b1, b2, b3]);
    assert [b0, b1, b2, b3][..3] == [b0, b1, b2] && [b0, b1, b2][..2] == [b0, b1] && [b0, b1][..1] == [b0];
    assert PositionalOr([b0]) == b0 by { PositionalIsLittle([b0]); OneByteValue(Little, b0); }
    assert PositionalOr([b0, b1]) == BitOr(b0, Shl(b1, 8));
    assert PositionalOr([b0, b1, b2]) == BitOr(PositionalOr([b0, b1]), Shl(b2, 16));
  }

  lemma Big4(b0: Byte, b1: Byte, b2: Byte, b3: Byte)
    ensures BitOr(BitOr(BitOr(Shl(b0, 24), Shl(b1, 16)), Shl(b2, 8)), b3) == Assemble(Big, [b0, b1, b2, b3])
  {
    var bs := [b0, b1, b2, b3];
    PositionalDownIsBig(bs, 3);
    assert PositionalOrDown([b0], 3) == Shl(b0, 24) by {
      PositionalDownIsBig([b0], 3);
      OneByteValue(Big, b0);
    }
    assert bs[..3] == [b0, b1, b2] && [b0, b1, b2][..2] == [b0, b1] && [b0, b1][..1] == [b0];
    assert PositionalOrDown([b0, b1], 3) == BitOr(Shl(b0, 24), Shl(b1, 16));
    assert PositionalOrDown([b0, b1, b2], 3) == BitOr(PositionalOrDown([b0, b1], 3), Shl(b2, 8));
    assert Shl(b3, 0) == b3 && Shl(Assemble(Big, bs), 0) == Assemble(Big, bs);
  }

  lemma FourBytesOf(v: nat)
    ensures Disassemble(Little, v, 4) == [ByteOf(v, 0), ByteOf(v, 8), ByteOf(v, 16), ByteOf(v, 24)]
    ensures Disassemble(Big, v, 4) == [ByteOf(v, 24), ByteOf(v, 16), ByteOf(v, 8), ByteOf(v, 0)]
  {
    ByteOfIsByte(v, 4, 0);
    ByteOfIsByte(v, 4, 1);
    ByteOfIsByte(v, 4, 2);
    ByteOfIsByte(v, 4, 3);
    ReverseFour(ByteOf(v, 0), ByteOf(v, 8), ByteOf(v, 16), ByteOf(v, 24));
  }

  lemma ReverseFour(b0: Byte, b1: Byte, b2: Byte, b3: Byte)
    ensures Reverse([b0, b1, b2, b3]) == [b3, b2, b1, b0]
  {
  }
}

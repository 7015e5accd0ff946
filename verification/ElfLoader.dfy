/** The byte readers and the symbol hash of the ELF loader. */
module ElfLoader {
  import opened Bits
  import opened ByteOrder

  datatype ElfData = DataNone | DataLsb | DataMsb

  /** Only LSB is little endian; every other tag reads big endian. */
  function OrderOf(d: ElfData): Endian {
    if d == DataLsb then Little else Big
  }

  function ElfReadU16(data: seq<Byte>, d: ElfData): nat
    requires |data| >= 2
  {
    if d == DataLsb then BitOr(data[0], Shl(data[1], 8)) else BitOr(Shl(data[0], 8), data[1])
  }

  function ElfReadU32(data: seq<Byte>, d: ElfData): nat
    requires |data| >= 4
  {
    if d == DataLsb then BitOr(BitOr(BitOr(data[0], Shl(data[1], 8)), Shl(data[2], 16)), Shl(data[3], 24))
    else BitOr(BitOr(BitOr(Shl(data[0], 24), Shl(data[1], 16)), Shl(data[2], 8)), data[3])
  }

  /** The halfword and word readers give the value of their bytes in the file's byte order. */
  lemma NarrowReaders(data: seq<Byte>, d: ElfData)
    requires |data| >= 4
    ensures ElfReadU16(data, d) == Assemble(OrderOf(d), data[..2])
    ensures ElfReadU32(data, d) == Assemble(OrderOf(d), data[..4])
  {
    assert data[..2] == [data[0], data[1]];
    assert data[..4] == [data[0], data[1], data[2], data[3]];
    TwoByteValue(data[0], data[1]);
    FourByteValue(data[0], data[1], data[2], data[3]);
  }

  method ElfReadU64(data: seq<Byte>, d: ElfData) returns (value: Word)
    requires |data| >= 8
    ensures value == Assemble(OrderOf(d), data[..8])
  {
    value := 0;
    ghost var bs := data[..8];
    if d == DataLsb {
      var i := 7;
      while i >= 0
        invariant -1 <= i <= 7
        invariant value == HornerOr(Reverse(bs)[..7 - i])
      {
        ghost var r := Reverse(bs);
        HornerNext(r, 7 - i);
        HornerBound(r[..8 - i]);
        value := BitOr(Wrap(Shl(value, 8)), data[i]);
        i := i - 1;
      }
      assert Reverse(bs)[..8] == Reverse(bs);
      HornerIsBig(Reverse(bs));
      ReverseTwice(bs);
    } else {
      for i := 0 to 8
        invariant value == HornerOr(bs[..i])
      {
        HornerNext(bs, i);
        HornerBound(bs[..i + 1]);
        value := BitOr(Wrap(Shl(value, 8)), data[i]);
      }
      assert bs[..8] == bs;
      HornerIsBig(bs);
    }
  }

  lemma HornerBound(bs: seq<Byte>)
    requires |bs| <= 8
    ensures HornerOr(bs) < TWO_64
  {
    HornerIsBig(bs);
    AssembleBound(Big, bs);
    Pow256Monotone(|bs|, 8);
    Pow256Values();
  }

  // ----- The symbol hash -----

  /** The value hash << 4 plus the next character, in 32 bits. */
  function Shifted(h: Word32, c: Byte): Word32 {
    Wrap32(16 * h + c)
  }

  lemma Shl28(q: nat)
    ensures Shl(q, 28) == TWO_28 * q && Pow2(28) == TWO_28
  {
    Pow2Values();
  }

  lemma LowNibble(q: nat)
    requires q < 16
    ensures BitAnd(q, 15) == q
  {
    assert Pow2(4) == 16 by { Pow2Values(); }
    MaskKeeps(4, 15, q);
  }

  lemma MaskKeeps(k: nat, m: nat, a: nat)
    requires m == Pow2(k) - 1 && a <= m
    ensures BitAnd(a, m) == a
  {
    MaskIsMod(k, a);
    DivModUnique(a, Pow2(k), 0, a);
  }

  /** The mask keeps the top four bits of a 32-bit value. */
  lemma TopNibble(x: Word32)
    ensures BitAnd(x, 0xF000_0000) == TWO_28 * (x / TWO_28)
  {
    var a, q := x % TWO_28, x / TWO_28;
    assert x == a + TWO_28 * q && q < 16;
    Shl28(q);
    Shl28(15);
    BitwiseZero(BitOp.And, a);
    LowNibble(q);
    BitwiseSplit(BitOp.And, 28, a, q, 0, 15);
  }

  /** g: the top four bits of a 32-bit value, in place. */
  function TopBits(x: Word32): (g: Word32)
    ensures g == TWO_28 * (x / TWO_28)
  {
    TopNibble(x);
    BitAnd(x, 0xF000_0000)
  }

  /** ~g in 32 bits. */
  function Not32(g: Word32): Word32 {
    0xFFFF_FFFF - g
  }

  /** One turn of the loop, with its masks: g is folded in and then cleared. */
  function HashStep(h: Word32, c: Byte): nat {
    var x := Shifted(h, c);
    var g := TopBits(x);
    if g != 0 then BitAnd(BitXor(x, Shr(g, 24)), Not32(g)) else x
  }

  /** Clearing exactly the top bits that are set leaves the low 28 bits. */
  lemma ClearTop(y: nat, q: nat)
    requires y < TWO_28 && q < 16
    ensures BitAnd(TWO_28 * q + y, 0xFFFF_FFFF - TWO_28 * q) == y
  {
    Shl28(q);
    Shl28(15 - q);
    LowMask(y);
    NibbleComplement(q);
    Shl28(0);
    BitwiseSplit(BitOp.And, 28, y, q, TWO_28 - 1, 15 - q);
  }

  lemma LowMask(y: nat)
    requires y < TWO_28
    ensures BitAnd(y, TWO_28 - 1) == y
  {
    assert Pow2(28) == TWO_28 by { Pow2Values(); }
    MaskKeeps(28, TWO_28 - 1, y);
  }

  lemma NibbleComplement(q: nat)
    requires q < 16
    ensures BitAnd(q, 15 - q) == 0
  {
    NibbleHalves(q / 2);
    assert (15 - q) / 2 == 7 - q / 2 && (15 - q) % 2 == 1 - q % 2;
  }

  lemma NibbleHalves(r: nat)
    requires r < 8
    ensures BitAnd(r, 7 - r) == 0
  {
    var s := r / 2;
    assert (7 - r) / 2 == 3 - s && (7 - r) % 2 == 1 - r % 2;
    assert s == 0 || s == 1 || s == 2 || s == 3;
    assert BitAnd(s, 3 - s) == 0 by {
      assert Bitwise(BitOp.And, 0, 3) == 0 && Bitwise(BitOp.And, 3, 0) == 0 by { BitwiseZero(BitOp.And, 3); }
      assert Bitwise(BitOp.And, 1, 2) == 0 && Bitwise(BitOp.And, 2, 1) == 0;
    }
  }

  lemma FoldTop(x: Word32)
    ensures var q, low := x / TWO_28, x % TWO_28;
            BitXor(x, 16 * q) == TWO_28 * q + BitXor(low, 16 * q) && BitXor(low, 16 * q) < TWO_28
  {
    var q, low := x / TWO_28, x % TWO_28;
    assert x == low + TWO_28 * q;
    Shl28(q);
    Shl28(0);
    BitwiseZero(BitOp.Xor, q);
    BitwiseSplit(BitOp.Xor, 28, low, q, 16 * q, 0);
  }

  /** x with its low 28 bits kept and its top four bits folded in, four places up. */
  function Folded(x: int): nat
    requires 0 <= x < 0x1_0000_0000
  {
    BitXor(x % 0x1000_0000, 16 * (x / 0x1000_0000))
  }

  /** Each turn folds 16 h + c, a 32-bit number. */
  lemma HashStepFolds(h: Word32, c: Byte)
    ensures HashStep(h, c) == Folded((16 * h + c) % 0x1_0000_0000) && HashStep(h, c) < 0x1000_0000
  {
    var x := Shifted(h, c);
    var q := x / TWO_28;
    TopNibble(x);
    FoldTop(x);
    if q == 0 {
      BitwiseZero(BitOp.Xor, x);
    } else {
      GShifted(q);
      ClearTop(BitXor(x % TWO_28, 16 * q), q);
    }
  }

  lemma HashStepFits(h: Word32, c: Byte)
    ensures HashStep(h, c) < TWO_32
  {
    HashStepFolds(h, c);
  }

  lemma GShifted(q: nat)
    ensures Shr(TWO_28 * q, 24) == 16 * q
  {
    Pow2Values();
    DivModUnique(TWO_28 * q, 0x100_0000, 16 * q, 0);
  }

  /** The hash of a name: fold the steps from 0. */
  function Hash(name: seq<Byte>): (h: Word32) {
    if name == [] then 0
    else
      var h := Hash(name[..|name| - 1]);
      var c := name[|name| - 1];
      HashStepFolds(h, c);
      HashStep(h, c)
  }

  lemma HashNext(name: seq<Byte>, i: nat)
    requires i < |name|
    ensures Hash(name[..i + 1]) == HashStep(Hash(name[..i]), name[i])
  {
    assert name[..i + 1][..i] == name[..i];
  }

  /** The hash of a name, character by character. */
  lemma {:induction false} HashRecurrence(name: seq<Byte>, c: Byte)
    ensures Hash([]) == 0
    ensures Hash(name + [c]) == Folded((16 * Hash(name) + c) % 0x1_0000_0000)
  {
    HashSnoc(name, c);
    HashStepFolds(Hash(name), c);
  }

  lemma {:induction false} HashSnoc(name: seq<Byte>, c: Byte)
    ensures Hash(name + [c]) == HashStep(Hash(name), c)
  {
    var longer := name + [c];
    assert longer[..|name| + 1] == longer && longer[..|name|] == name;
    HashNext(longer, |name|);
  }

  /** The bytes of a C string, up to its terminator. */
  function CString(data: seq<Byte>): seq<Byte> {
    if data == [] || data[0] == 0 then [] else [data[0]] + CString(data[1..])
  }

  lemma {:induction false} CStringAt(data: seq<Byte>, n: nat)
    requires n < |data| && data[n] == 0 && forall i :: 0 <= i < n ==> data[i] != 0
    ensures CString(data) == data[..n]
  {
    if n == 0 {
    } else {
      CStringAt(data[1..], n - 1);
      assert data[..n] == [data[0]] + data[1..][..n - 1];
    }
  }

  lemma BeforeTerminator(name: seq<Byte>, i: nat)
    requires 0 in name && i <= |name| && forall k :: 0 <= k < i ==> name[k] != 0
    ensures i < |name|
  {
  }

  /** mips64_hash_table on a NUL-terminated name. */
  method HashTable(name: seq<Byte>) returns (hash: Word32)
    requires 0 in name
    ensures hash == Hash(CString(name))
    ensures forall n :: 0 <= n < |name| && name[n] == 0 && (forall k :: 0 <= k < n ==> name[k] != 0) ==>
              hash == Hash(name[..n])
  {
    hash := 0;
    var g: Word32 := 0;
    var i := 0;
    while name[i] != 0
      invariant 0 <= i < |name|
      invariant forall k :: 0 <= k < i ==> name[k] != 0
      invariant hash == Hash(name[..i])
      decreases |name| - i
    {
      HashNext(name, i);
      HashStepFits(hash, name[i]);
      ghost var before := hash;
      hash := Shifted(hash, name[i]);
      g := TopBits(hash);
      if g != 0 {
        hash := BitAnd(BitXor(hash, Shr(g, 24)), Not32(g));
      }
      assert hash == HashStep(before, name[i]);
      i := i + 1;
      BeforeTerminator(name, i);
    }
    CStringAt(name, i);
    forall n | 0 <= n < |name| && name[n] == 0 && (forall k :: 0 <= k < n ==> name[k] != 0)
      ensures hash == Hash(name[..n])
    {
      CStringAt(name, n);
    }
  }

  /** The hash is a 28-bit number for every name, although the additions wrap at 32 bits. */
  lemma HashBound(name: seq<Byte>)
    ensures Hash(name) < TWO_28
  {
    if name != [] {
      HashStepFolds(Hash(name[..|name| - 1]), name[|name| - 1]);
    }
  }

  /** The base-16 polynomial of the bytes. */
  function Polynomial(name: seq<Byte>): nat {
    if name == [] then 0 else 16 * Polynomial(name[..|name| - 1]) + name[|name| - 1]
  }

  /** The hash is the base-16 polynomial of the name exactly when the polynomial is below 2^28. */
  lemma {:induction false} HashIsPolynomial(name: seq<Byte>)
    ensures Hash(name) == Polynomial(name) <==> Polynomial(name) < TWO_28
  {
    HashBound(name);
    if Polynomial(name) < TWO_28 && name != [] {
      var n := |name| - 1;
      HashIsPolynomial(name[..n]);
      SmallStep(Polynomial(name[..n]), name[n]);
    }
  }

  /** A step whose exact value stays below 2^28 neither wraps nor folds. */
  lemma SmallStep(p: Word32, c: Byte)
    requires 16 * p + c < TWO_28
    ensures HashStep(p, c) == 16 * p + c
  {
    var x := 16 * p + c;
    assert Shifted(p, c) == x && x / TWO_28 == 0;
  }

  lemma {:induction false} PolynomialBound(name: seq<Byte>)
    ensures 15 * Polynomial(name) <= 255 * (Pow2(4 * |name|) - 1)
  {
    if name == [] {
    } else {
      var n := |name| - 1;
      PolynomialBound(name[..n]);
      Pow2Values();
      Pow2Sum(4, 4 * n);
    }
  }

  /** Names of at most five bytes never fold. */
  lemma ShortNames(name: seq<Byte>)
    requires |name| <= 5
    ensures Hash(name) == Polynomial(name)
  {
    PolynomialBound(name);
    HashIsPolynomial(name);
    Pow16Bound(|name|);
  }

  lemma Pow16Bound(n: nat)
    requires n <= 5
    ensures Pow2(4 * n) <= 0x10_0000
  {
    var top := 20;
    assert Pow2(top) == 0x10_0000 by {
      Pow2Values();
      Pow2Sum(4, 16);
    }
    Pow2Monotone(4 * n, top);
  }

  lemma {:induction false} Pow2Monotone(i: nat, j: nat)
    requires i <= j
    ensures Pow2(i) <= Pow2(j)
    decreases j
  {
    if i < j {
      Pow2Monotone(i, j - 1);
    }
  }
}

/** What the machine's arithmetic amounts to, stated by laws: counting up for addition, repeated addition
    for multiplication, remainders for division, halving for shifts, truth tables for the bit operators and
    single bytes for memory accesses. */
module X64Arithmetic {
  import opened Bits
  import opened X64Machine
  import ByteOrder

  // ----- Words as signed numbers -----

  /** The signed reading is the number in the signed range that agrees with the word modulo 2^64. */
  lemma SignedReading(w: Word)
    ensures -0x8000_0000_0000_0000 <= Signed(w) < 0x8000_0000_0000_0000
    ensures Signed(w) % 0x1_0000_0000_0000_0000 == w
  {
  }

  /** Sign extension keeps the signed number that a byte or a 32-bit word stands for. */
  lemma SignExtensions(x: Byte, y: Word32)
    ensures -0x80 <= Signed(SignExtend8(x)) < 0x80 && Signed(SignExtend8(x)) % 0x100 == x
    ensures -0x8000_0000 <= Signed(SignExtend32(y)) < 0x8000_0000 && Signed(SignExtend32(y)) % 0x1_0000_0000 == y
  {
  }

  /** TEST of a register with itself tells whether it is zero and whether it is negative. */
  lemma TestOfSelf(x: Word32)
    ensures TestSelf(x).zero <==> x == 0
    ensures TestSelf(x).sign <==> Signed32(x) < 0
    ensures !TestSelf(x).overflow
  {
  }

  // ----- Addition, subtraction, multiplication -----

  lemma WrapAdd(a: int, b: int)
    ensures Wrap(Wrap(a) + b) == Wrap(a + b)
  {
    var q, r := a / TWO_64, Wrap(a);
    var q', r' := (r + b) / TWO_64, Wrap(r + b);
    assert a == TWO_64 * q + r && r + b == TWO_64 * q' + r';
    DivModUnique(a + b, TWO_64, q + q', r');
  }

  /** Adding 0 changes nothing, and adding one more counts the sum up by one. */
  lemma AddCounts(x: Word, y: Word)
    ensures Compute(Add, x, 0) == x
    ensures Compute(Add, x, (y + 1) % 0x1_0000_0000_0000_0000) == (Compute(Add, x, y) + 1) % 0x1_0000_0000_0000_0000
  {
    var sum: int := x + y;
    WrapAdd(sum, 1);
    WrapAdd(y + 1, x);
    assert y + 1 + x == sum + 1;
  }

  /** Subtraction undoes addition, and addition subtraction. */
  lemma SubUndoesAdd(x: Word, y: Word)
    ensures Compute(Sub, Compute(Add, x, y), y) == x
    ensures Compute(Add, Compute(Sub, x, y), y) == x
  {
    var i: int, j: int := x, y;
    WrapAdd(i + j, -j);
    WrapAdd(i - j, j);
  }

  /** Multiplying by 0 gives 0, and multiplying by one more adds the other factor. */
  lemma MulAdds(x: Word, y: Word)
    ensures Compute(Mul, x, 0) == 0
    ensures Compute(Mul, x, (y + 1) % 0x1_0000_0000_0000_0000) == Compute(Add, Compute(Mul, x, y), x)
  {
    MulByZero(x);
    MulSuccessor(x, y, Wrap(y + 1));
  }

  lemma MulSuccessor(x: Word, y: Word, z: Word)
    requires z == Wrap(y + 1)
    ensures Compute(Mul, x, z) == Compute(Add, Compute(Mul, x, y), x)
  {
    if y + 1 < TWO_64 {
      WrapSmall(y + 1);
      MulNext(x, y);
    } else {
      assert z == 0;
      MulByZero(x);
      MulLast(x, y);
    }
  }

  lemma MulByZero(x: Word)
    ensures Compute(Mul, x, 0) == 0
  {
    assert x * 0 == 0;
  }

  lemma MulNext(x: Word, y: Word)
    requires y + 1 < TWO_64
    ensures Compute(Mul, x, y + 1) == Compute(Add, Compute(Mul, x, y), x)
  {
    ProductStep(x, y);
  }

  lemma MulLast(x: Word, y: Word)
    requires y + 1 == TWO_64
    ensures Compute(Add, Compute(Mul, x, y), x) == 0
  {
    ProductStep(x, y);
    MultipleOfTwo64(x, y + 1);
  }

  lemma MultipleOfTwo64(x: Word, y: int)
    requires y == TWO_64
    ensures Wrap(x * y) == 0
  {
    DivModUnique(x * y, TWO_64, x, 0);
  }

  lemma ProductStep(x: int, y: int)
    ensures Wrap(x * (y + 1)) == Wrap(Wrap(x * y) + x)
  {
    var product := x * y;
    assert x * (y + 1) == product + x;
    WrapAdd(product, x);
  }

  // ----- The bit operators -----

  /** Bit k of x. */
  predicate BitAt(x: nat, k: nat)
    decreases k
  {
    if k == 0 then x % 2 == 1 else BitAt(x / 2, k - 1)
  }

  lemma {:induction false} BitwiseBits(op: BitOp, a: nat, b: nat, k: nat)
    ensures BitAt(Bitwise(op, a, b), k) <==>
              match op
              case And => BitAt(a, k) && BitAt(b, k)
              case Or => BitAt(a, k) || BitAt(b, k)
              case Xor => BitAt(a, k) != BitAt(b, k)
    decreases k
  {
    BitwiseUnfold(op, a, b, 0, 0);
    BitAbove(Bitwise(op, a, b), Bitwise(op, a / 2, b / 2), OneBit(op, a % 2, b % 2), k);
    if k > 0 {
      BitwiseBits(op, a / 2, b / 2, k - 1);
    }
  }

  lemma {:induction false} BitAbove(v: nat, high: nat, low: nat, k: nat)
    requires v == 2 * high + low && low < 2
    ensures BitAt(v, k) <==> if k == 0 then low == 1 else BitAt(high, k - 1)
  {
    assert v / 2 == high && v % 2 == low;
  }

  /** AND, OR and XOR work on each bit by their truth tables. */
  lemma {:induction false} LogicBits(x: Word, y: Word, k: nat)
    ensures BitAt(Compute(BinOp.And, x, y), k) <==> BitAt(x, k) && BitAt(y, k)
    ensures BitAt(Compute(BinOp.Or, x, y), k) <==> BitAt(x, k) || BitAt(y, k)
    ensures BitAt(Compute(BinOp.Xor, x, y), k) <==> BitAt(x, k) != BitAt(y, k)
  {
    BitwiseBits(BitOp.And, x, y, k);
    BitwiseBits(BitOp.Or, x, y, k);
    BitwiseBits(BitOp.Xor, x, y, k);
  }

  // ----- Shifts -----

  /** Shifting left by one more doubles. */
  lemma {:induction false} LeftShiftDoubles(x: Word, count: nat)
    ensures ShiftLeft(x, 0) == x
    ensures ShiftLeft(x, count + 1) == (2 * ShiftLeft(x, count)) % 0x1_0000_0000_0000_0000
  {
    var v := Shl(x, count);
    ShlStep(x, count + 1);
    WrapAdd(v, v);
    WrapAdd(v, Wrap(v));
    assert 2 * Wrap(v) == Wrap(v) + Wrap(v);
  }

  /** The right shift by count is the floor of the signed value over 2^count. */
  lemma {:induction false} RightShiftFloors(x: Word, count: nat)
    ensures var q := Signed(ShiftRight(x, count));
            q * Pow2(count) <= Signed(x) < q * Pow2(count) + Pow2(count)
  {
    var p, s := Pow2(count), Signed(x);
    var q := FloorDiv(s, p);
    FloorBound(s, p);
    assert s == p * q + s % p;
    assert p * q == q * p;
    assert Signed(Wrap(q)) == q;
  }

  lemma FloorBound(s: int, p: nat)
    requires p > 0 && -TWO_63 <= s < TWO_63
    ensures -TWO_63 <= s / p < TWO_63
  {
    var q := s / p;
    assert s == p * q + s % p;
    if q >= 0 {
      assert p * q >= q by { MulAtLeastOne(p, q); }
    } else {
      assert p * (-q) >= -q by { MulAtLeastOne(p, -q); }
      NegativeFloor(s, p, q);
    }
  }

  lemma MulAtLeastOne(p: int, q: int)
    requires p >= 1 && q >= 0
    ensures p * q >= q
  {
    assert (p - 1) * q >= 0;
  }

  lemma NegativeFloor(s: int, p: int, q: int)
    requires p >= 1 && q < 0 && s == p * q + s % p
    ensures q >= s || s >= 0
  {
    var k := -q - 1;
    assert p * k >= k by { MulAtLeastOne(p, k); }
    assert p * q == -(p * k) - p;
  }

  // ----- Division -----

  /** The quotient of the division is truncated: the remainder is smaller than the divisor and has the sign
      of the dividend. */
  lemma QuotientLaw(x: int, y: int)
    requires y != 0
    ensures IsQuotient(x, y, TruncDiv(x, y))
  {
    SignedRemainder(x, y);
  }

  lemma SignedRemainder(x: int, y: int)
    requires y != 0
    ensures x - TruncDiv(x, y) * y == if x < 0 then -(Abs(x) % Abs(y)) else Abs(x) % Abs(y)
  {
    var a, b := Abs(x), Abs(y);
    assert a == b * (a / b) + a % b;
    QuotientTimesDivisor(x, y);
  }

  lemma QuotientTimesDivisor(x: int, y: int)
    requires y != 0
    ensures var p := Abs(y) * (Abs(x) / Abs(y)); TruncDiv(x, y) * y == if x < 0 then -p else p
  {
    NegativeProducts(Abs(x) / Abs(y), Abs(y));
  }

  lemma NegativeProducts(q: int, b: int)
    ensures (-q) * b == -(b * q) && q * (-b) == -(b * q) && (-q) * (-b) == b * q && q * b == b * q
  {
  }

  /** Only one quotient is truncated. */
  lemma QuotientUnique(x: int, y: int, p: int, q: int)
    requires y != 0 && IsQuotient(x, y, p) && IsQuotient(x, y, q)
    ensures p == q
  {
    var r, s := x - p * y, x - q * y;
    assert r - s == (q - p) * y;
    assert if y > 0 then -y < r - s < y else y < r - s < -y;
    SmallMultiple(q - p, y);
  }

  lemma SmallMultiple(k: int, y: int)
    requires y != 0
    ensures (if y > 0 then -y < k * y < y else y < k * y < -y) ==> k == 0
  {
    if k != 0 {
      MulAtLeastOne(Abs(k), Abs(y));
      NegativeProducts(Abs(k), Abs(y));
    }
  }

  /** q truncates x over y toward zero. */
  predicate IsQuotient(x: int, y: int, q: int) {
    var r := x - q * y;
    (if y > 0 then -y < r < y else y < r < -y) && (r != 0 ==> (r < 0 <==> x < 0))
  }

  /** IDIV leaves the truncated quotient in RAX and the remainder in RDX. */
  lemma IdivLaw(x: Word, m: Machine)
    ensures var dividend := Signed(m.regs[RDX]) * 0x1_0000_0000_0000_0000 + m.regs[RAX];
            var o := ExecIdiv(x, m);
            o.Next? ==>
              && x != 0 && IsQuotient(dividend, Signed(x), Signed(o.m.regs[RAX]))
              && Signed(o.m.regs[RAX]) * Signed(x) + Signed(o.m.regs[RDX]) == dividend
  {
    if ExecIdiv(x, m).Next? {
      var dividend := Signed(m.regs[RDX]) * TWO_64 + m.regs[RAX];
      var q := TruncDiv(dividend, Signed(x));
      QuotientLaw(dividend, Signed(x));
      SignedOfWrap(q);
      SignedOfWrap(dividend - q * Signed(x));
    }
  }

  lemma SignedOfWrap(v: int)
    requires -TWO_63 <= v < TWO_63
    ensures Signed(Wrap(v)) == v
  {
  }

  // ----- Memory -----

  /** The number in the four bytes from a on, addresses wrapping around. */
  function FourBytes(mem: Mem, a: Word): int {
    At(mem, a) + 0x100 * At(mem, Next64(a, 1)) as int + 0x1_0000 * At(mem, Next64(a, 2)) as int
    + 0x100_0000 * At(mem, Next64(a, 3)) as int
  }

  /** A 32-bit load reads four bytes, the first one least significant. */
  lemma {:induction false} LoadFour(mem: Mem, a: Word)
    ensures LoadedValue(false, mem, a) == FourBytes(mem, a)
  {
    var n := Width(false);
    LoadFourBytes(mem, a, n);
    FourBytesBound(mem, a, n);
    WrapSmall(FromBytes(LoadBytes(mem, a, n)));
  }

  lemma WrapSmall(v: nat)
    requires v < TWO_64
    ensures Wrap(v) == v
  {
  }

  lemma {:induction false} LoadFourBytes(mem: Mem, a: Word, n: nat)
    requires n == 4
    ensures FromBytes(LoadBytes(mem, a, n)) == FourBytes(mem, a)
  {
    Steps(a);
    var a1, a2, a3 := Next64(a, 1), Next64(a, 2), Next64(a, 3);
    var v3 := FromBytes(LoadBytes(mem, a3, n - 3));
    var v2 := FromBytes(LoadBytes(mem, a2, n - 2));
    var v1 := FromBytes(LoadBytes(mem, a1, n - 1));
    assert v3 == At(mem, a3) by { LoadUnfold(mem, a3, n - 3); }
    assert v2 == At(mem, a2) + 256 * v3 by { LoadUnfold(mem, a2, n - 2); }
    assert v1 == At(mem, a1) + 256 * v2 by { LoadUnfold(mem, a1, n - 1); }
    LoadUnfold(mem, a, n);
  }

  /** A 64-bit load reads eight. */
  lemma {:induction false} LoadEight(mem: Mem, a: Word)
    ensures LoadedValue(true, mem, a) == FourBytes(mem, a) + 0x1_0000_0000 * FourBytes(mem, Next64(a, 4))
  {
    var half := Width(false);
    assert half == 4 && Width(true) == half + half;
    LoadSplit(mem, a, half, half);
    FourBytesBound(mem, a, half);
    FourBytesBound(mem, Next64(a, 4), half);
    LoadFourBytes(mem, a, half);
    LoadFourBytes(mem, Next64(a, 4), half);
    HalvesFit(FromBytes(LoadBytes(mem, a, half)), FromBytes(LoadBytes(mem, Next64(a, 4), half)));
  }

  lemma HalvesFit(low: nat, high: nat)
    requires low < TWO_32 && high < TWO_32
    ensures Wrap(low) == low && Wrap(high) == high && Wrap(low + TWO_32 * high) == low + TWO_32 * high
  {
    WrapSmall(low);
    WrapSmall(high);
    WrapSmall(low + TWO_32 * high);
  }

  lemma FourBytesBound(mem: Mem, a: Word, n: nat)
    requires n == 4
    ensures FromBytes(LoadBytes(mem, a, n)) < TWO_32
  {
    FromBytesBound(LoadBytes(mem, a, n));
    assert Pow256(n) == TWO_32 by { Pow256Values(); }
  }

  lemma {:induction false} LoadSplit(mem: Mem, a: Word, i: nat, j: nat)
    requires i == j == 4
    ensures FromBytes(LoadBytes(mem, a, i + j))
         == FromBytes(LoadBytes(mem, a, i)) + TWO_32 * FromBytes(LoadBytes(mem, Next64(a, 4), j))
  {
    LoadConcat(mem, a, i, j);
    FromBytesConcat(LoadBytes(mem, a, i), LoadBytes(mem, Offset(a, i), j));
    assert Pow256(i) == TWO_32 by { Pow256Values(); }
  }

  lemma {:induction false} LoadConcat(mem: Mem, a: Word, i: nat, j: nat)
    ensures LoadBytes(mem, a, i + j) == LoadBytes(mem, a, i) + LoadBytes(mem, Offset(a, i), j)
    decreases i
  {
    if i == 0 {
      assert Offset(a, 0) == a;
    } else {
      var next := Offset(a, 1);
      LoadConcat(mem, next, i - 1, j);
      OffsetChain(a, i);
      ConcatAssociates([At(mem, a)], LoadBytes(mem, next, i - 1), LoadBytes(mem, Offset(a, i), j));
    }
  }

  lemma OffsetChain(a: Word, i: nat)
    requires i > 0
    ensures Offset(Offset(a, 1), i - 1) == Offset(a, i)
  {
    WrapAdd(a + 1, i - 1);
  }

  /** The address k bytes on. */
  function Next64(a: Word, k: nat): Word {
    (a + k) % 0x1_0000_0000_0000_0000
  }

  lemma NextStep(a: Word, k: nat)
    ensures Offset(Next64(a, k), 1) == Next64(a, k + 1)
  {
    WrapAdd(a + k, 1);
  }

  lemma Steps(a: Word)
    ensures Offset(a, 1) == Next64(a, 1) && Offset(Next64(a, 1), 1) == Next64(a, 2)
    ensures Offset(Next64(a, 2), 1) == Next64(a, 3) && Offset(Next64(a, 3), 1) == Next64(a, 4)
  {
    NextStep(a, 1);
    NextStep(a, 2);
    NextStep(a, 3);
  }

  lemma LoadUnfold(mem: Mem, a: Word, n: nat)
    requires n > 0
    ensures FromBytes(LoadBytes(mem, a, n)) == At(mem, a) + 256 * FromBytes(LoadBytes(mem, Offset(a, 1), n - 1))
  {
    assert LoadBytes(mem, a, n)[1..] == LoadBytes(mem, Offset(a, 1), n - 1);
  }
}

/** Machine integers, the C bit operators on them, and little- and big-endian byte strings.
    A word is an unbounded integer restricted to its range; wrap-around is always written out. */
module Bits {

  const TWO_16: int := 0x1_0000
  const TWO_28: int := 0x1000_0000
  const TWO_31: int := 0x8000_0000
  const TWO_32: int := 0x1_0000_0000
  const TWO_63: int := 0x8000_0000_0000_0000
  const TWO_64: int := 0x1_0000_0000_0000_0000

  type Byte = x: int | 0 <= x < 0x100
  type Word16 = x: int | 0 <= x < 0x1_0000
  type Word32 = x: int | 0 <= x < 0x1_0000_0000
  type Word = x: int | 0 <= x < 0x1_0000_0000_0000_0000

  datatype Option<+T> = None | Some(value: T)

  /** Conversion to uint64_t. */
  function Wrap(x: int): Word {
    x % TWO_64
  }

  /** Conversion to uint32_t. */
  function Wrap32(x: int): Word32 {
    x % TWO_32
  }

  /** A word read as int64_t. */
  function Signed(w: Word): int {
    if w < TWO_63 then w else w - TWO_64
  }

  /** The low 32 bits of x read as int32_t. */
  function Signed32(x: int): int {
    var low := x % TWO_32;
    if low < TWO_31 then low else low - TWO_32
  }

  function Pow2(k: nat): (p: nat)
    ensures p > 0
  {
    if k == 0 then 1 else 2 * Pow2(k - 1)
  }

  lemma {:induction false} Pow2Sum(j: nat, k: nat)
    ensures Pow2(j + k) == Pow2(j) * Pow2(k)
  {
    if j == 0 {
    } else {
      Pow2Sum(j - 1, k);
      assert 2 * (Pow2(j - 1) * Pow2(k)) == (2 * Pow2(j - 1)) * Pow2(k);
    }
  }

  lemma {:induction false} Pow2Values()
    ensures Pow2(3) == 8 && Pow2(4) == 16 && Pow2(5) == 32 && Pow2(6) == 64 && Pow2(8) == 0x100
    ensures Pow2(16) == 0x1_0000 && Pow2(24) == 0x100_0000
    ensures Pow2(28) == TWO_28 && Pow2(32) == TWO_32 && Pow2(64) == TWO_64
  {
    assert Pow2(1) == 2;
    assert Pow2(2) == 4;
    assert Pow2(3) == 8;
    assert Pow2(4) == 16;
    assert Pow2(5) == 32;
    assert Pow2(6) == 64;
    assert Pow2(8) == 0x100 by { Pow2Sum(4, 4); }
    assert Pow2(16) == 0x1_0000 by { Pow2Sum(8, 8); }
    assert Pow2(24) == 0x100_0000 by { Pow2Sum(8, 16); }
    assert Pow2(28) == TWO_28 by { Pow2Sum(4, 24); }
    assert Pow2(32) == TWO_32 by { Pow2Sum(16, 16); }
    assert Pow2(64) == TWO_64 by { Pow2Sum(32, 32); }
  }

  // ----- The bit operators -----

  datatype BitOp = And | Or | Xor

  function OneBit(op: BitOp, x: nat, y: nat): (z: nat)
    requires x < 2 && y < 2
    ensures z < 2
  {
    match op
    case And => if x == 1 && y == 1 then 1 else 0
    case Or => if x == 1 || y == 1 then 1 else 0
    case Xor => if x != y then 1 else 0
  }

  /** The C operators &, | and ^ on non-negative integers, one bit at a time. */
  function Bitwise(op: BitOp, a: nat, b: nat): nat
    decreases a + b
  {
    if a == 0 && b == 0 then 0
    else 2 * Bitwise(op, a / 2, b / 2) + OneBit(op, a % 2, b % 2)
  }

  function BitAnd(a: nat, b: nat): nat { Bitwise(And, a, b) }

  function BitOr(a: nat, b: nat): nat { Bitwise(Or, a, b) }

  function BitXor(a: nat, b: nat): nat { Bitwise(Xor, a, b) }

  lemma BitwiseUnfold(op: BitOp, a: nat, b: nat, u: nat, v: nat)
    ensures Bitwise(op, a + 2 * u, b + 2 * v) == 2 * Bitwise(op, a / 2 + u, b / 2 + v) + OneBit(op, a % 2, b % 2)
  {
    assert (a + 2 * u) / 2 == a / 2 + u && (b + 2 * v) / 2 == b / 2 + v;
    assert (a + 2 * u) % 2 == a % 2 && (b + 2 * v) % 2 == b % 2;
  }

  lemma ConcatAssociates<T>(x: seq<T>, y: seq<T>, z: seq<T>)
    ensures (x + y) + z == x + (y + z)
  {
  }

  // ----- Shifts -----

  /** x << k without a width. */
  function Shl(x: nat, k: nat): nat {
    x * Pow2(k)
  }

  /** x >> k. */
  function Shr(x: nat, k: nat): nat {
    QuotientAtMost(x, Pow2(k));
    x / Pow2(k)
  }

  lemma ShlStep(x: nat, k: nat)
    requires k > 0
    ensures Shl(x, k) == 2 * Shl(x, k - 1)
  {
    MulTwice(Pow2(k), Pow2(k - 1), x);
  }

  lemma MulTwice(d: int, p: int, x: int)
    requires d == 2 * p
    ensures x * d == 2 * (x * p)
  {
  }

  // ----- Low and high bits -----

  lemma {:induction false} BitwiseBound(op: BitOp, k: nat, a: nat, b: nat)
    requires a < Pow2(k) && b < Pow2(k)
    ensures Bitwise(op, a, b) < Pow2(k)
  {
    if k == 0 {
    } else {
      BitwiseBound(op, k - 1, a / 2, b / 2);
      HalvesBound(op, a, b, Pow2(k - 1));
    }
  }

  /** A bit operator works on the low k bits and on the rest independently. */
  lemma {:induction false} BitwiseSplit(op: BitOp, k: nat, a: nat, x: nat, b: nat, y: nat)
    requires a < Pow2(k) && b < Pow2(k)
    ensures Bitwise(op, a, b) < Pow2(k)
    ensures Bitwise(op, a + Shl(x, k), b + Shl(y, k)) == Bitwise(op, a, b) + Shl(Bitwise(op, x, y), k)
  {
    BitwiseBound(op, k, a, b);
    var z := Bitwise(op, x, y);
    if k == 0 {
      assert Shl(x, 0) == x && Shl(y, 0) == y && Shl(z, 0) == z;
    } else {
      BitwiseSplit(op, k - 1, a / 2, x, b / 2, y);
      SplitStep(op, k, a, x, b, y, z);
    }
  }

  lemma {:induction false} SplitStep(op: BitOp, k: nat, a: nat, x: nat, b: nat, y: nat, z: nat)
    requires k > 0
    requires Bitwise(op, a / 2 + Shl(x, k - 1), b / 2 + Shl(y, k - 1)) == Bitwise(op, a / 2, b / 2) + Shl(z, k - 1)
    ensures Bitwise(op, a + Shl(x, k), b + Shl(y, k)) == Bitwise(op, a, b) + Shl(z, k)
  {
    ShlStep(x, k);
    ShlStep(y, k);
    ShlStep(z, k);
    SplitStepSums(op, a, Shl(x, k - 1), b, Shl(y, k - 1), Shl(z, k - 1));
  }

  lemma HalvesBound(op: BitOp, a: nat, b: nat, p: nat)
    requires Bitwise(op, a / 2, b / 2) < p
    ensures Bitwise(op, a, b) < 2 * p
  {
    BitwiseUnfold(op, a, b, 0, 0);
  }

  lemma SplitStepSums(op: BitOp, a: nat, u: nat, b: nat, v: nat, w: nat)
    requires Bitwise(op, a / 2 + u, b / 2 + v) == Bitwise(op, a / 2, b / 2) + w
    ensures Bitwise(op, a + 2 * u, b + 2 * v) == Bitwise(op, a, b) + 2 * w
  {
    BitwiseUnfold(op, a, b, 0, 0);
    BitwiseUnfold(op, a, b, u, v);
  }

  /** x & 0 is 0, while x | 0 and x ^ 0 are x. */
  lemma {:induction false} BitwiseZero(op: BitOp, a: nat)
    ensures Bitwise(op, a, 0) == (if op.And? then 0 else a)
    ensures Bitwise(op, 0, a) == (if op.And? then 0 else a)
  {
    if a == 0 {
    } else {
      BitwiseZero(op, a / 2);
    }
  }

  /** OR or XOR of values that share no bit position is their sum. */
  lemma {:induction false} DisjointOr(op: BitOp, k: nat, a: nat, x: nat)
    requires !op.And? && a < Pow2(k)
    ensures Bitwise(op, a, Shl(x, k)) == a + Shl(x, k) && Bitwise(op, Shl(x, k), a) == a + Shl(x, k)
  {
    BitwiseZero(op, a);
    BitwiseZero(op, x);
    LowAndHigh(op, k, a, x);
  }

  lemma {:induction false} LowAndHigh(op: BitOp, k: nat, a: nat, x: nat)
    requires a < Pow2(k)
    ensures Bitwise(op, a, Shl(x, k)) == Bitwise(op, a, 0) + Shl(Bitwise(op, 0, x), k)
    ensures Bitwise(op, Shl(x, k), a) == Bitwise(op, 0, a) + Shl(Bitwise(op, x, 0), k)
  {
    ShlZero(k);
    SplitParts(op, k, a, 0, 0, x, a, Shl(x, k));
    SplitParts(op, k, 0, x, a, 0, Shl(x, k), a);
  }

  lemma ShlZero(k: nat)
    ensures Shl(0, k) == 0
  {
  }

  /** BitwiseSplit on values that are sums of a low and a high part. */
  lemma {:induction false} SplitParts(op: BitOp, k: nat, a: nat, x: nat, b: nat, y: nat, p: nat, q: nat)
    requires a < Pow2(k) && b < Pow2(k) && p == a + Shl(x, k) && q == b + Shl(y, k)
    ensures Bitwise(op, p, q) == Bitwise(op, a, b) + Shl(Bitwise(op, x, y), k)
  {
    BitwiseSplit(op, k, a, x, b, y);
  }

  /** AND with k one bits keeps the remainder modulo 2^k. */
  lemma {:induction false} MaskIsMod(k: nat, a: nat)
    ensures BitAnd(a, Pow2(k) - 1) == a % Pow2(k)
  {
    if k == 0 {
      BitwiseZero(And, a);
    } else {
      var p := Pow2(k - 1);
      MaskIsMod(k - 1, a / 2);
      ModTwice(a, p);
      MaskStep(a, p);
    }
  }

  lemma MaskStep(a: nat, p: nat)
    requires p > 0
    ensures BitAnd(a, 2 * p - 1) == 2 * BitAnd(a / 2, p - 1) + a % 2
  {
    assert (2 * p - 1) / 2 == p - 1 && (2 * p - 1) % 2 == 1;
  }

  lemma ModTwice(a: nat, p: nat)
    requires p > 0
    ensures a % (2 * p) == 2 * ((a / 2) % p) + a % 2
  {
    var h := a / 2;
    var q, r := h / p, h % p;
    MulTwice(2 * p, p, q);
    assert h == p * q + r && a == 2 * h + a % 2;
    DivModUnique(a, 2 * p, q, 2 * r + a % 2);
  }

  /** Quotient and remainder are unique. */
  lemma DivModUnique(a: int, d: int, q: int, r: int)
    requires d > 0 && a == d * q + r && 0 <= r < d
    ensures a / d == q && a % d == r
  {
    var q', r' := a / d, a % d;
    assert a == d * q' + r';
    if q > q' {
      MulAtLeast(d, q, q');
    } else if q < q' {
      MulAtLeast(d, q', q);
    }
  }

  lemma MulAtLeast(d: int, x: int, y: int)
    requires d > 0 && x > y
    ensures d * x >= d * y + d
  {
    assert d * (x - y - 1) >= 0;
    assert d * x == d * (x - y - 1) + d * y + d;
  }

  lemma QuotientAtMost(a: nat, b: nat)
    requires b > 0
    ensures 0 <= a / b <= a
  {
    ProductBound(a, b, a / b, a % b);
  }

  lemma ProductBound(a: nat, b: nat, q: int, r: int)
    requires a == b * q + r && 0 <= r < b
    ensures 0 <= q <= a
  {
    if q < 0 {
      MulAtLeast(b, 0, q);
    } else {
      assert (b - 1) * q >= 0;
      assert b * q == (b - 1) * q + q;
    }
  }

  // ----- Byte strings -----

  /** The n low-order bytes of v, least significant first. */
  function ToBytes(v: int, n: nat): (bs: seq<Byte>)
    ensures |bs| == n
    decreases n, v
  {
    if n == 0 then [] else [v % 256] + ToBytes(v / 256, n - 1)
  }

  /** The value of a byte string, least significant byte first. */
  function FromBytes(bs: seq<Byte>): nat {
    if bs == [] then 0 else bs[0] + 256 * FromBytes(bs[1..])
  }

  function Pow256(n: nat): (p: nat)
    ensures p > 0
  {
    if n == 0 then 1 else 256 * Pow256(n - 1)
  }

  lemma {:induction false} Pow256IsPow2(n: nat)
    ensures Pow256(n) == Pow2(8 * n)
  {
    if n == 0 {
    } else {
      Pow256IsPow2(n - 1);
      Pow2Values();
      Pow2Sum(8, 8 * (n - 1));
    }
  }

  lemma Pow256Values()
    ensures Pow256(1) == 256 && Pow256(2) == TWO_16 && Pow256(4) == TWO_32 && Pow256(8) == TWO_64
  {
    assert Pow256(4) == 256 * Pow256(3) == 65536 * Pow256(2);
    assert Pow256(6) == 256 * Pow256(5) == 65536 * Pow256(4);
    assert Pow256(8) == 256 * Pow256(7) == 65536 * Pow256(6);
  }

  lemma {:induction false} FromBytesBound(bs: seq<Byte>)
    ensures FromBytes(bs) < Pow256(|bs|)
  {
    if bs == [] {
    } else {
      FromBytesBound(bs[1..]);
    }
  }

  lemma {:induction false} BytesRoundTrip(v: int, n: nat)
    requires 0 <= v < Pow256(n)
    ensures FromBytes(ToBytes(v, n)) == v
  {
    if n == 0 {
    } else {
      BytesRoundTrip(v / 256, n - 1);
      assert ToBytes(v, n)[1..] == ToBytes(v / 256, n - 1);
    }
  }

  lemma {:induction false} BytesRoundTripBack(bs: seq<Byte>)
    ensures ToBytes(FromBytes(bs), |bs|) == bs
  {
    if bs == [] {
    } else {
      BytesRoundTripBack(bs[1..]);
      var r := FromBytes(bs[1..]);
      assert FromBytes(bs) == bs[0] + 256 * r;
      ToBytesCons(bs[0], r, |bs|);
      assert bs == [bs[0]] + bs[1..];
    }
  }

  lemma {:induction false} ToBytesCons(low: Byte, high: nat, n: nat)
    requires n > 0
    ensures ToBytes(low + 256 * high, n) == [low] + ToBytes(high, n - 1)
  {
    DivModUnique(low + 256 * high, 256, high, low);
  }

  lemma MulScale(c: int, p: int, x: int)
    ensures (c * p) * x == c * (p * x)
  {
  }

  lemma {:induction false} FromBytesConcat(a: seq<Byte>, b: seq<Byte>)
    ensures FromBytes(a + b) == FromBytes(a) + Pow256(|a|) * FromBytes(b)
  {
    if a == [] {
      assert a + b == b;
    } else {
      FromBytesConcat(a[1..], b);
      assert (a + b)[1..] == a[1..] + b;
      MulScale(256, Pow256(|a| - 1), FromBytes(b));
    }
  }

  lemma ToBytes4(v: int)
    ensures ToBytes(v, 4) == [v % 256, v / 256 % 256, v / 0x1_0000 % 256, v / 0x100_0000 % 256]
  {
    var a := v / 256;
    var b := a / 256;
    var c := b / 256;
    assert ToBytes(c, 1) == [c % 256] + ToBytes(c / 256, 0);
    assert ToBytes(b, 2) == [b % 256] + ToBytes(c, 1);
    assert ToBytes(a, 3) == [a % 256] + ToBytes(b, 2);
    assert b == v / 0x1_0000;
    assert c == v / 0x100_0000;
  }

  function Reverse(bs: seq<Byte>): (r: seq<Byte>)
    ensures |r| == |bs|
  {
    seq(|bs|, i requires 0 <= i < |bs| => bs[|bs| - 1 - i])
  }
}

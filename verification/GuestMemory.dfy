/** The guest memory unit: checked accesses of 1, 2, 4 and 8 bytes in either byte order. */
module GuestMemory {
  import opened Bits
  import opened ByteOrder

  const MAX_SIZE: nat := 64 * 1024 * 1024

  datatype Status = Ok | OutOfBounds | Misaligned

  /** What a read gives: the value stored through the out pointer, or the status that left it alone. */
  datatype ReadResult = Value(v: nat) | Fault(status: Status)

  // ----- The checks -----

  /** mips64_bound_checking, with 64-bit arithmetic. */
  predicate BoundCheck(address: Word, size: Word) {
    if size == 0 then false
    else if address > Wrap(TWO_64 - 1 - size) then false
    else Wrap(address + size) <= MAX_SIZE
  }

  /** The check agrees with unbounded arithmetic on every address and size. */
  lemma BoundCheckExact(address: Word, size: Word)
    ensures BoundCheck(address, size) <==> size > 0 && (address as int) + size <= 0x400_0000
  {
  }

  /** mips64_alignment_checking, with its masks. */
  predicate AlignmentCheck(address: Word, size: Word) {
    if size == 1 then true
    else if size == 2 then BitAnd(address, 0x1) == 0
    else if size == 4 then BitAnd(address, 0x3) == 0
    else if size == 8 then BitAnd(address, 0x7) == 0
    else false
  }

  predicate IsWidth(w: int) {
    w == 1 || w == 2 || w == 4 || w == 8
  }

  /** The masks test divisibility, and every other size is refused. */
  lemma AlignmentCheckExact(address: Word, size: Word)
    ensures AlignmentCheck(address, size) <==> IsWidth(size) && address % size == 0
  {
    Pow2Values();
    assert Pow2(1) == 2 && Pow2(2) == 4;
    MaskIsMod(1, address);
    MaskIsMod(2, address);
    MaskIsMod(3, address);
  }

  /** The status of an access; bounds are checked before alignment. */
  function Check(address: Word, w: Word): Status {
    if !BoundCheck(address, w) then OutOfBounds
    else if !AlignmentCheck(address, w) then Misaligned
    else Ok
  }

  lemma CheckOk(address: Word, w: Word)
    ensures Check(address, w) == Ok <==> IsWidth(w) && address % w == 0 && address + w <= 0x400_0000
  {
    BoundCheckExact(address, w);
    AlignmentCheckExact(address, w);
  }

  // ----- Accesses as functions of the bytes -----

  function ReadValue(mem: seq<Byte>, e: Endian, w: Word, address: Word): ReadResult
    requires |mem| == MAX_SIZE
  {
    if Check(address, w) == Ok then
      CheckOk(address, w);
      Value(Assemble(e, mem[address..address + w]))
    else Fault(Check(address, w))
  }

  function WriteValue(mem: seq<Byte>, e: Endian, w: Word, address: Word, v: nat): (mem': seq<Byte>)
    requires |mem| == MAX_SIZE
    ensures |mem'| == MAX_SIZE
  {
    if Check(address, w) == Ok then
      CheckOk(address, w);
      mem[..address] + Disassemble(e, v, w) + mem[address + w..]
    else mem
  }

  /** What a write leaves in each byte. */
  lemma WriteValueAt(mem: seq<Byte>, e: Endian, w: Word, address: Word, v: nat, x: nat)
    requires |mem| == MAX_SIZE && x < MAX_SIZE
    ensures WriteValue(mem, e, w, address, v)[x]
         == if Check(address, w) == Ok && address <= x < address + w then Disassemble(e, v, w)[x - address] else mem[x]
  {
    CheckOk(address, w);
  }

  /** A memory that agrees byte by byte with an accepted write is the written memory. */
  lemma WritePointwise(after: seq<Byte>, mem: seq<Byte>, e: Endian, w: Word, address: Word, v: nat)
    requires |after| == |mem| == MAX_SIZE && Check(address, w) == Ok
    requires forall x :: address <= x < address + w && x < MAX_SIZE ==> after[x] == Disassemble(e, v, w)[x - address]
    requires forall x :: 0 <= x < MAX_SIZE && !(address <= x < address + w) ==> after[x] == mem[x]
    ensures after == WriteValue(mem, e, w, address, v)
  {
    var written := WriteValue(mem, e, w, address, v);
    forall x | 0 <= x < MAX_SIZE ensures after[x] == written[x] {
      WriteValueAt(mem, e, w, address, v, x);
    }
  }

  // ----- The memory object -----

  class Memory {
    const memory: array<Byte>
    var endian: Endian

    ghost predicate Valid() {
      memory.Length == MAX_SIZE
    }

    /** mips64_memory_init on freshly allocated storage. */
    constructor (endian: Endian)
      ensures Valid() && fresh(memory) && this.endian == endian
      ensures memory[..] == seq(MAX_SIZE, _ => 0)
    {
      memory := new Byte[MAX_SIZE](_ => 0);
      this.endian := endian;
    }

    /** mips64_memory_init on existing storage: everything is cleared and the byte order is set. */
    method Init(endian: Endian)
      requires Valid()
      modifies memory, `endian
      ensures this.endian == endian && memory[..] == seq(MAX_SIZE, _ => 0)
    {
      forall i | 0 <= i < memory.Length {
        memory[i] := 0;
      }
      this.endian := endian;
    }

    /** mips64_memory_reset. Clearing the whole struct also clears the byte order, to little endian. */
    method Reset()
      requires Valid()
      modifies memory, `endian
      ensures memory[..] == seq(MAX_SIZE, _ => 0) && endian == Little
      ensures endian == old(endian) <==> old(endian) == Little
    {
      forall i | 0 <= i < memory.Length {
        memory[i] := 0;
      }
      endian := Little;
    }

    method Read8(address: Word) returns (r: ReadResult)
      requires Valid()
      ensures r == ReadValue(memory[..], endian, 1, address)
    {
      CheckOk(address, 1);
      if !BoundCheck(address, 1) {
        return Fault(OutOfBounds);
      }
      ghost var bs := memory[address..address + 1];
      assert memory[..][address..address + 1] == bs == [memory[address]];
      OneByteValue(endian, memory[address]);
      r := Value(memory[address]);
    }

    method Read16(address: Word) returns (r: ReadResult)
      requires Valid()
      ensures r == ReadValue(memory[..], endian, 2, address)
    {
      CheckOk(address, 2);
      if !BoundCheck(address, 2) {
        return Fault(OutOfBounds);
      }
      if !AlignmentCheck(address, 2) {
        return Fault(Misaligned);
      }
      var b0, b1 := memory[address], memory[address + 1];
      assert memory[..][address..address + 2] == [b0, b1];
      TwoByteValue(b0, b1);
      if endian == Little {
        r := Value(BitOr(b0, Shl(b1, 8)));
      } else {
        r := Value(BitOr(Shl(b0, 8), b1));
      }
    }

    method Read32(address: Word) returns (r: ReadResult)
      requires Valid()
      ensures r == ReadValue(memory[..], endian, 4, address)
    {
      CheckOk(address, 4);
      if !BoundCheck(address, 4) {
        return Fault(OutOfBounds);
      }
      if !AlignmentCheck(address, 4) {
        return Fault(Misaligned);
      }
      var b0, b1, b2, b3 := memory[address], memory[address + 1], memory[address + 2], memory[address + 3];
      assert memory[..][address..address + 4] == [b0, b1, b2, b3];
      FourByteValue(b0, b1, b2, b3);
      if endian == Little {
        r := Value(BitOr(BitOr(BitOr(b0, Shl(b1, 8)), Shl(b2, 16)), Shl(b3, 24)));
      } else {
        r := Value(BitOr(BitOr(BitOr(Shl(b0, 24), Shl(b1, 16)), Shl(b2, 8)), b3));
      }
    }

    method Read64(address: Word) returns (r: ReadResult)
      requires Valid()
      ensures r == ReadValue(memory[..], endian, 8, address)
    {
      CheckOk(address, 8);
      if !BoundCheck(address, 8) {
        return Fault(OutOfBounds);
      }
      if !AlignmentCheck(address, 8) {
        return Fault(Misaligned);
      }
      var value;
      if endian == Little {
        value := OrUpward(address);
      } else {
        value := OrDownward(address);
      }
      assert memory[..][address..address + 8] == memory[address..address + 8];
      r := Value(value);
    }

    /** The little-endian loop of the 64-bit read. */
    method OrUpward(address: Word) returns (value: nat)
      requires Valid() && (address as int) + 8 <= MAX_SIZE
      ensures value == Assemble(Little, memory[address..address + 8])
    {
      ghost var bs := memory[address..address + 8];
      value := 0;
      for i := 0 to 8
        invariant value == PositionalOr(bs[..i])
      {
        PositionalNext(bs, i);
        value := BitOr(value, Shl(memory[address + i], i * 8));
      }
      assert bs[..8] == bs;
      PositionalIsLittle(bs);
    }

    /** The big-endian loop of the 64-bit read. */
    method OrDownward(address: Word) returns (value: nat)
      requires Valid() && (address as int) + 8 <= MAX_SIZE
      ensures value == Assemble(Big, memory[address..address + 8])
    {
      ghost var bs := memory[address..address + 8];
      value := 0;
      for i := 0 to 8
        invariant value == PositionalOrDown(bs[..i], 7)
      {
        PositionalDownNext(bs, i);
        value := BitOr(value, Shl(memory[address + i], (7 - i) * 8));
      }
      assert bs[..8] == bs;
      PositionalDownIsBig(bs, 7);
      assert Shl(Assemble(Big, bs), 0) == Assemble(Big, bs);
    }

    method Write8(address: Word, value: Byte) returns (status: Status)
      requires Valid()
      modifies memory
      ensures status == Check(address, 1)
      ensures memory[..] == WriteValue(old(memory[..]), endian, 1, address, value)
    {
      CheckOk(address, 1);
      if !BoundCheck(address, 1) {
        return OutOfBounds;
      }
      OneByteDisassembled(endian, value);
      memory[address] := value;
      status := Ok;
    }

    method Write16(address: Word, value: nat) returns (status: Status)
      requires Valid() && value < TWO_16
      modifies memory
      ensures status == Check(address, 2)
      ensures memory[..] == WriteValue(old(memory[..]), endian, 2, address, value)
    {
      CheckOk(address, 2);
      if !BoundCheck(address, 2) {
        return OutOfBounds;
      }
      if !AlignmentCheck(address, 2) {
        return Misaligned;
      }
      ByteOfIsByte(value, 2, 0);
      ByteOfIsByte(value, 2, 1);
      if endian == Little {
        memory[address] := ByteOf(value, 0);
        memory[address + 1] := ByteOf(value, 8);
      } else {
        memory[address] := ByteOf(value, 8);
        memory[address + 1] := ByteOf(value, 0);
      }
      WritePointwise(memory[..], old(memory[..]), endian, 2, address, value);
      status := Ok;
    }

    method Write32(address: Word, value: Word32) returns (status: Status)
      requires Valid()
      modifies memory
      ensures status == Check(address, 4)
      ensures memory[..] == WriteValue(old(memory[..]), endian, 4, address, value)
    {
      CheckOk(address, 4);
      if !BoundCheck(address, 4) {
        return OutOfBounds;
      }
      if !AlignmentCheck(address, 4) {
        return Misaligned;
      }
      FourBytesOf(value);
      if endian == Little {
        StoreFour(address, ByteOf(value, 0), ByteOf(value, 8), ByteOf(value, 16), ByteOf(value, 24));
      } else {
        StoreFour(address, ByteOf(value, 24), ByteOf(value, 16), ByteOf(value, 8), ByteOf(value, 0));
      }
      WritePointwise(memory[..], old(memory[..]), endian, 4, address, value);
      status := Ok;
    }

    /** The four assignments of the 32-bit write. */
    method StoreFour(address: Word, b0: Byte, b1: Byte, b2: Byte, b3: Byte)
      requires Valid() && (address as int) + 4 <= MAX_SIZE
      modifies memory
      ensures forall x :: address <= x < address + 4 ==> memory[x] == [b0, b1, b2, b3][x - address]
      ensures forall x :: 0 <= x < MAX_SIZE && !(address <= x < address + 4) ==> memory[x] == old(memory[x])
    {
      memory[address] := b0;
      memory[address + 1] := b1;
      memory[address + 2] := b2;
      memory[address + 3] := b3;
    }

    method Write64(address: Word, value: Word) returns (status: Status)
      requires Valid()
      modifies memory
      ensures status == Check(address, 8)
      ensures memory[..] == WriteValue(old(memory[..]), endian, 8, address, value)
    {
      CheckOk(address, 8);
      if !BoundCheck(address, 8) {
        return OutOfBounds;
      }
      if !AlignmentCheck(address, 8) {
        return Misaligned;
      }
      if endian == Little {
        StoreUpward(address, value);
      } else {
        StoreDownward(address, value);
      }
      WritePointwise(memory[..], old(memory[..]), endian, 8, address, value);
      status := Ok;
    }

    /** If the object holds the memory of a run, after a write it holds that of the longer run. */
    twostate lemma WriteExtendsRun(start: seq<Byte>, run: seq<Access>, w: Word, address: Word, value: nat)
      requires Valid() && |start| == MAX_SIZE && old(memory[..]) == RunAccesses(start, run)
      requires memory[..] == WriteValue(old(memory[..]), endian, w, address, value)
      ensures memory[..] == RunAccesses(start, run + [Store(endian, w, address, value)])
    {
      var longer := run + [Store(endian, w, address, value)];
      assert longer[..|longer| - 1] == run;
    }

    /** A read after a run of calls gives the latest byte at each address, and extends the run. */
    lemma ReadInRun(start: seq<Byte>, run: seq<Access>, w: Word, address: Word)
      requires Valid() && |start| == MAX_SIZE && memory[..] == RunAccesses(start, run)
      ensures Check(address, w) == Ok ==> address + w <= MAX_SIZE
      ensures ReadValue(memory[..], endian, w, address)
           == if Check(address, w) == Ok then Value(Assemble(endian, LatestBytes(start, run, address, w)))
              else Fault(Check(address, w))
      ensures memory[..] == RunAccesses(start, run + [Load(endian, w, address)])
    {
      ReadAfterRun(start, run, endian, w, address);
      var longer := run + [Load(endian, w, address)];
      assert longer[..|longer| - 1] == run;
    }

    /** The little-endian loop of the 64-bit write. */
    method StoreUpward(address: Word, value: Word)
      requires Valid() && (address as int) + 8 <= MAX_SIZE
      modifies memory
      ensures forall x :: address <= x < address + 8 ==> memory[x] == ToBytes(value, 8)[x - address]
      ensures forall x :: 0 <= x < MAX_SIZE && !(address <= x < address + 8) ==> memory[x] == old(memory[x])
    {
      ghost var bs := ToBytes(value, 8);
      for i := 0 to 8
        invariant forall x :: address <= x < address + i ==> memory[x] == bs[x - address]
        invariant forall x :: 0 <= x < MAX_SIZE && !(address <= x < address + i) ==> memory[x] == old(memory[x])
      {
        ByteOfIsByte(value, 8, i);
        memory[address + i] := ByteOf(value, i * 8);
      }
    }

    /** The big-endian loop of the 64-bit write. */
    method StoreDownward(address: Word, value: Word)
      requires Valid() && (address as int) + 8 <= MAX_SIZE
      modifies memory
      ensures forall x :: address <= x < address + 8 ==> memory[x] == Reverse(ToBytes(value, 8))[x - address]
      ensures forall x :: 0 <= x < MAX_SIZE && !(address <= x < address + 8) ==> memory[x] == old(memory[x])
    {
      ghost var bs := Reverse(ToBytes(value, 8));
      for i := 0 to 8
        invariant forall x :: address <= x < address + i ==> memory[x] == bs[x - address]
        invariant forall x :: 0 <= x < MAX_SIZE && !(address <= x < address + i) ==> memory[x] == old(memory[x])
      {
        ByteOfIsByte(value, 8, 7 - i);
        assert bs[i] == ToBytes(value, 8)[7 - i];
        memory[address + i] := ByteOf(value, (7 - i) * 8);
      }
    }
  }

  // ----- Runs of accesses refine a flat byte map -----

  /** One access; the byte order is the object's at that moment. */
  datatype Access = Load(e: Endian, w: Word, address: Word) | Store(e: Endian, w: Word, address: Word, v: nat)

  /** Memory after a run of accesses. */
  function RunAccesses(mem: seq<Byte>, run: seq<Access>): (mem': seq<Byte>)
    requires |mem| == MAX_SIZE
    ensures |mem'| == MAX_SIZE
  {
    if run == [] then mem
    else
      var before := RunAccesses(mem, run[..|run| - 1]);
      match run[|run| - 1]
      case Load(_, _, _) => before
      case Store(e, w, address, v) => WriteValue(before, e, w, address, v)
  }

  predicate Covers(a: Access, x: nat) {
    a.Store? && Check(a.address, a.w) == Ok && a.address <= x < a.address + a.w
  }

  /** The flat map: a byte holds what the latest accepted store covering it put there, or its first value. */
  function LatestByte(mem: seq<Byte>, run: seq<Access>, x: nat): Byte
    requires |mem| == MAX_SIZE && x < MAX_SIZE
  {
    if run == [] then mem[x]
    else
      var a := run[|run| - 1];
      if Covers(a, x) then Disassemble(a.e, a.v, a.w)[x - a.address]
      else LatestByte(mem, run[..|run| - 1], x)
  }

  lemma {:induction false} RunIsLatest(mem: seq<Byte>, run: seq<Access>, x: nat)
    requires |mem| == MAX_SIZE && x < MAX_SIZE
    ensures RunAccesses(mem, run)[x] == LatestByte(mem, run, x)
  {
    if run == [] {
    } else {
      var init, a := run[..|run| - 1], run[|run| - 1];
      RunIsLatest(mem, init, x);
      if a.Store? {
        WriteValueAt(RunAccesses(mem, init), a.e, a.w, a.address, a.v, x);
      }
    }
  }

  function LatestBytes(mem: seq<Byte>, run: seq<Access>, address: nat, w: nat): (bs: seq<Byte>)
    requires |mem| == MAX_SIZE && address + w <= MAX_SIZE
    ensures |bs| == w && forall i :: 0 <= i < w ==> bs[i] == LatestByte(mem, run, address + i)
  {
    if w == 0 then [] else LatestBytes(mem, run, address, w - 1) + [LatestByte(mem, run, address + w - 1)]
  }

  /** After any run, an accepted read gives the value assembled from the latest byte at each address, and
      a rejected one gives the status of the first failing check. */
  lemma ReadAfterRun(mem: seq<Byte>, run: seq<Access>, e: Endian, w: Word, address: Word)
    requires |mem| == MAX_SIZE
    ensures Check(address, w) == Ok ==> (address as int) + w <= MAX_SIZE
    ensures ReadValue(RunAccesses(mem, run), e, w, address)
         == if Check(address, w) == Ok then Value(Assemble(e, LatestBytes(mem, run, address, w)))
            else Fault(Check(address, w))
  {
    CheckOk(address, w);
    if Check(address, w) == Ok {
      var after, latest := RunAccesses(mem, run), LatestBytes(mem, run, address, w);
      forall i | 0 <= i < w ensures after[address..address + w][i] == latest[i] {
        RunIsLatest(mem, run, address + i);
      }
      assert after[address..address + w] == latest;
    }
  }

  // ----- Widths -----

  predicate Inside(a: int, w: int, b: int, v: int) {
    b <= a && a + w <= b + v
  }

  predicate Disjoint(a: int, w: int, b: int, v: int) {
    a + w <= b || b + v <= a
  }

  /** Two accepted accesses never overlap partially. */
  lemma DisjointOrNested(a: Word, w: Word, b: Word, v: Word)
    requires Check(a, w) == Ok && Check(b, v) == Ok
    ensures Disjoint(a, w, b, v) || Inside(a, w, b, v) || Inside(b, v, a, w)
  {
    CheckOk(a, w);
    CheckOk(b, v);
    if w <= v {
      AlignedNesting(a, w, b, v);
    } else {
      AlignedNesting(b, v, a, w);
    }
  }

  lemma AlignedNesting(a: Word, w: Word, b: Word, v: Word)
    requires IsWidth(w) && IsWidth(v) && w <= v && a % w == 0 && b % v == 0
    ensures Disjoint(a, w, b, v) || Inside(a, w, b, v)
  {
    if w == 2 {
      NestedHalfwords(a, b, v);
    } else if w == 4 {
      NestedWords(a, b, v);
    } else if w == 8 {
      assert a == 8 * (a / 8) && b == 8 * (b / 8);
    }
  }

  lemma NestedHalfwords(a: Word, b: Word, v: Word)
    requires (v == 2 || v == 4 || v == 8) && a % 2 == 0 && b % v == 0
    ensures Disjoint(a, 2, b, v) || Inside(a, 2, b, v)
  {
    assert a == 2 * (a / 2);
    if v == 2 {
      assert b == 2 * (b / 2);
    } else if v == 4 {
      assert b == 4 * (b / 4);
    } else {
      assert b == 8 * (b / 8);
    }
  }

  lemma NestedWords(a: Word, b: Word, v: Word)
    requires (v == 4 || v == 8) && a % 4 == 0 && b % v == 0
    ensures Disjoint(a, 4, b, v) || Inside(a, 4, b, v)
  {
    assert a == 4 * (a / 4);
    if v == 4 {
      assert b == 4 * (b / 4);
    } else {
      assert b == 8 * (b / 8);
    }
  }

  /** A write leaves every disjoint accepted read as it was. */
  lemma DisjointReadUnchanged(mem: seq<Byte>, e: Endian, w: Word, a: Word, x: nat, e': Endian, v: Word, b: Word)
    requires |mem| == MAX_SIZE && Check(b, v) == Ok && Disjoint(a, w, b, v)
    ensures ReadValue(WriteValue(mem, e, w, a, x), e', v, b) == ReadValue(mem, e', v, b)
  {
    CheckOk(b, v);
    DisjointBytesUnchanged(mem, e, w, a, x, v, b);
  }

  lemma DisjointBytesUnchanged(mem: seq<Byte>, e: Endian, w: Word, a: Word, x: nat, v: nat, b: nat)
    requires |mem| == MAX_SIZE && b + v <= MAX_SIZE && Disjoint(a, w, b, v)
    ensures WriteValue(mem, e, w, a, x)[b..b + v] == mem[b..b + v]
  {
    var after := WriteValue(mem, e, w, a, x);
    forall y | b <= y < b + v ensures after[y] == mem[y] {
      WriteValueAt(mem, e, w, a, x, y);
    }
  }

  /** x without its k low bytes, and the value of its n low bytes. */
  function DropBytes(x: nat, k: nat): nat
    decreases k
  {
    if k == 0 then x else DropBytes(x / 256, k - 1)
  }

  function TakeBytes(x: nat, n: nat): nat
    decreases n
  {
    if n == 0 then 0 else x % 256 + 256 * TakeBytes(x / 256, n - 1)
  }

  lemma {:induction false} DropIsQuotient(x: nat, k: nat)
    ensures DropBytes(x, k) == x / Pow256(k)
    decreases k
  {
    if k == 0 {
    } else {
      DropIsQuotient(x / 256, k - 1);
      DivDiv(x, 256, Pow256(k - 1));
    }
  }

  lemma {:induction false} TakeIsRemainder(x: nat, n: nat)
    ensures TakeBytes(x, n) == x % Pow256(n)
    decreases n
  {
    if n == 0 {
    } else {
      TakeIsRemainder(x / 256, n - 1);
      ModStep(x, Pow256(n - 1));
    }
  }

  lemma {:induction false} SliceOfBytes(x: nat, w: nat, off: nat, n: nat)
    requires off + n <= w
    ensures ToBytes(x, w)[off..off + n] == ToBytes(DropBytes(x, off), n)
    decreases w
  {
    if off == 0 {
      PrefixOfBytes(x, w, n);
    } else {
      SliceOfBytes(x / 256, w - 1, off - 1, n);
      assert ToBytes(x, w)[off..off + n] == ToBytes(x / 256, w - 1)[off - 1..off - 1 + n];
    }
  }

  lemma {:induction false} PrefixOfBytes(x: nat, w: nat, n: nat)
    requires n <= w
    ensures ToBytes(x, w)[..n] == ToBytes(x, n)
    decreases w
  {
    if n == 0 {
    } else {
      PrefixOfBytes(x / 256, w - 1, n - 1);
      assert ToBytes(x, w)[..n] == [x % 256] + ToBytes(x / 256, w - 1)[..n - 1];
    }
  }

  lemma {:induction false} ValueOfBytes(x: nat, n: nat)
    ensures FromBytes(ToBytes(x, n)) == TakeBytes(x, n)
    decreases n
  {
    if n == 0 {
    } else {
      ValueOfBytes(x / 256, n - 1);
      assert ToBytes(x, n)[1..] == ToBytes(x / 256, n - 1);
    }
  }

  lemma ModStep(x: nat, p: nat)
    requires p > 0
    ensures x % (256 * p) == x % 256 + 256 * (x / 256 % p)
  {
    var h := x / 256;
    var q, r := h / p, h % p;
    Reassociate(256, p, q);
    assert h == p * q + r && x == 256 * h + x % 256;
    DivModUnique(x, 256 * p, q, x % 256 + 256 * r);
  }

  /** Which part of a w-byte value a narrower read at an offset sees. */
  function PartOffset(e: Endian, w: nat, off: nat, n: nat): nat
    requires off + n <= w
  {
    if e == Little then off else w - off - n
  }

  /** After an accepted write, every aligned narrower read inside it is accepted and returns the part of
      the value that the byte order dictates. */
  lemma {:induction false} NarrowRead(mem: seq<Byte>, e: Endian, w: Word, a: Word, x: nat, off: nat, n: Word)
    requires |mem| == MAX_SIZE && Check(a, w) == Ok
    requires IsWidth(n) && off + n <= w && off % n == 0
    ensures a + off < TWO_64
    ensures ReadValue(WriteValue(mem, e, w, a, x), e, n, a + off)
         == Value(x / Pow256(PartOffset(e, w, off, n)) % Pow256(n))
  {
    var part := PartOffset(e, w, off, n);
    NarrowBytes(mem, e, w, a, x, off, n);
    DropIsQuotient(x, part);
    TakeIsRemainder(DropBytes(x, part), n);
  }

  lemma NarrowBytes(mem: seq<Byte>, e: Endian, w: Word, a: Word, x: nat, off: nat, n: Word)
    requires |mem| == MAX_SIZE && Check(a, w) == Ok
    requires IsWidth(n) && off + n <= w && off % n == 0
    ensures a + off < TWO_64
    ensures ReadValue(WriteValue(mem, e, w, a, x), e, n, a + off)
         == Value(TakeBytes(DropBytes(x, PartOffset(e, w, off, n)), n))
  {
    NarrowAccepted(a, w, off, n);
    AcceptedRead(WriteValue(mem, e, w, a, x), e, n, a + off);
    NarrowSlice(mem, e, w, a, x, off, n);
  }

  lemma NarrowAccepted(a: Word, w: Word, off: nat, n: Word)
    requires Check(a, w) == Ok && IsWidth(n) && off + n <= w && off % n == 0
    ensures a + w <= MAX_SIZE && Check(a + off, n) == Ok
  {
    CheckOk(a, w);
    AlignedInside(a, w, off, n);
    CheckOk(a + off, n);
  }

  lemma NarrowSlice(mem: seq<Byte>, e: Endian, w: Word, a: Word, x: nat, off: nat, n: nat)
    requires |mem| == MAX_SIZE && Check(a, w) == Ok && off + n <= w && a + w <= MAX_SIZE
    ensures Assemble(e, WriteValue(mem, e, w, a, x)[a + off..a + off + n])
         == TakeBytes(DropBytes(x, PartOffset(e, w, off, n)), n)
  {
    WrittenSlice(mem, e, w, a, x, off, n);
    PartValue(e, x, w, off, n);
  }

  lemma WrittenSlice(mem: seq<Byte>, e: Endian, w: Word, a: Word, x: nat, off: nat, n: nat)
    requires |mem| == MAX_SIZE && Check(a, w) == Ok && off + n <= w && a + w <= MAX_SIZE
    ensures WriteValue(mem, e, w, a, x)[a + off..a + off + n] == Disassemble(e, x, w)[off..off + n]
  {
    SliceOfMiddle(mem[..a], Disassemble(e, x, w), mem[a + w..], off, n);
  }

  lemma SliceOfMiddle(pre: seq<Byte>, mid: seq<Byte>, post: seq<Byte>, off: nat, n: nat)
    requires off + n <= |mid|
    ensures (pre + mid + post)[|pre| + off..|pre| + off + n] == mid[off..off + n]
  {
  }

  lemma PartValue(e: Endian, x: nat, w: nat, off: nat, n: nat)
    requires off + n <= w
    ensures Assemble(e, Disassemble(e, x, w)[off..off + n]) == TakeBytes(DropBytes(x, PartOffset(e, w, off, n)), n)
  {
    match e
    case Little => PartLittle(x, w, off, n);
    case Big => PartBig(x, w, off, n);
  }

  lemma {:induction false} PartBig(x: nat, w: nat, off: nat, n: nat)
    requires off + n <= w
    ensures Assemble(Big, Reverse(ToBytes(x, w))[off..off + n]) == TakeBytes(DropBytes(x, w - off - n), n)
  {
    BigSlice(ToBytes(x, w), off, n, Reverse(ToBytes(x, w))[off..off + n]);
    PartLittle(x, w, w - off - n, n);
  }

  lemma {:induction false} BigSlice(bs: seq<Byte>, off: nat, n: nat, cut: seq<Byte>)
    requires off + n <= |bs| && cut == Reverse(bs)[off..off + n]
    ensures Assemble(Big, cut) == FromBytes(bs[|bs| - off - n..|bs| - off])
  {
    ReverseSlice(bs, off, n);
  }

  lemma PartLittle(x: nat, w: nat, off: nat, n: nat)
    requires off + n <= w
    ensures FromBytes(ToBytes(x, w)[off..off + n]) == TakeBytes(DropBytes(x, off), n)
  {
    SliceOfBytes(x, w, off, n);
    ValueOfBytes(DropBytes(x, off), n);
  }

  lemma ReverseSlice(s: seq<Byte>, off: nat, n: nat)
    requires off + n <= |s|
    ensures Reverse(Reverse(s)[off..off + n]) == s[|s| - off - n..|s| - off]
  {
  }

  /** Divisibility by a width, with the width spelled out. */
  predicate DivisibleBy(a: nat, w: int) {
    (w == 2 ==> a % 2 == 0) && (w == 4 ==> a % 4 == 0) && (w == 8 ==> a % 8 == 0)
  }

  lemma DivisibleIsMod(a: nat, w: int)
    requires IsWidth(w)
    ensures DivisibleBy(a, w) <==> a % w == 0
  {
    if w == 1 {
      assert a % 1 == 0;
    }
  }

  lemma DivisibleNarrower(a: nat, w: int, n: int)
    requires IsWidth(w) && IsWidth(n) && n <= w && DivisibleBy(a, w)
    ensures DivisibleBy(a, n)
  {
    if w == 8 {
      DivModUnique(a, 4, 2 * (a / 8), 0);
      DivModUnique(a, 2, 4 * (a / 8), 0);
    } else if w == 4 {
      DivModUnique(a, 2, 2 * (a / 4), 0);
    }
  }

  lemma DivisibleSum(a: nat, b: nat, n: int)
    requires IsWidth(n) && DivisibleBy(a, n) && DivisibleBy(b, n)
    ensures DivisibleBy(a + b, n)
  {
    if n == 2 {
      DivModUnique(a + b, 2, a / 2 + b / 2, 0);
    } else if n == 4 {
      DivModUnique(a + b, 4, a / 4 + b / 4, 0);
    } else if n == 8 {
      DivModUnique(a + b, 8, a / 8 + b / 8, 0);
    }
  }

  lemma AlignedInside(a: Word, w: Word, off: nat, n: Word)
    requires IsWidth(w) && IsWidth(n) && n <= w && a % w == 0 && off % n == 0
    ensures (a + off) % n == 0
  {
    DivisibleIsMod(a, w);
    DivisibleIsMod(off, n);
    DivisibleNarrower(a, w, n);
    DivisibleSum(a, off, n);
    DivisibleIsMod(a + off, n);
  }

  // ----- Narrow reads recombine -----

  /** The reads of width n at a, a + n, and so on up to end. */
  function ReadParts(mem: seq<Byte>, e: Endian, n: Word, a: Word, end: nat): (parts: seq<ReadResult>)
    requires |mem| == MAX_SIZE && n > 0 && end <= MAX_SIZE
    decreases MAX_SIZE - a
  {
    if a + n > end then [] else [ReadValue(mem, e, n, a)] + ReadParts(mem, e, n, a + n, end)
  }

  /** Accepted reads of width n joined in the byte order: the first is the least significant digit in little
      endian and the most significant one in big endian. None if a read was rejected. */
  function Joined(e: Endian, n: nat, parts: seq<ReadResult>): Option<nat> {
    if parts == [] then Some(0)
    else
      var rest := Joined(e, n, parts[1..]);
      if !parts[0].Value? || rest.None? then None
      else if e == Little then Some(parts[0].v + Pow256(n) * rest.value)
      else Some(Pow256(n * (|parts| - 1)) * parts[0].v + rest.value)
  }

  /** Every accepted read is what the narrower reads of its bytes join to, for every narrower width. */
  lemma {:induction false} PartsJoin(mem: seq<Byte>, e: Endian, w: Word, n: Word, a: Word)
    requires |mem| == MAX_SIZE && Check(a, w) == Ok && IsWidth(n) && w % n == 0
    ensures a + w <= MAX_SIZE
    ensures ReadValue(mem, e, w, a).Value?
    ensures Joined(e, n, ReadParts(mem, e, n, a, a + w)) == Some(ReadValue(mem, e, w, a).v)
  {
    AcceptedRead(mem, e, w, a);
    AlignedPartsJoin(mem, e, w, n, a);
  }

  lemma {:induction false} AlignedPartsJoin(mem: seq<Byte>, e: Endian, w: Word, n: Word, a: Word)
    requires |mem| == MAX_SIZE && IsWidth(w) && a % w == 0 && a + w <= MAX_SIZE
    requires IsWidth(n) && w % n == 0
    ensures Joined(e, n, ReadParts(mem, e, n, a, a + w)) == Some(Assemble(e, mem[a..a + w]))
  {
    PartsAligned(a, w, n);
    PartsCover(mem, e, n, a, a + w, w / n);
  }

  lemma AcceptedRead(mem: seq<Byte>, e: Endian, w: Word, a: Word)
    requires |mem| == MAX_SIZE && Check(a, w) == Ok
    ensures IsWidth(w) && a % w == 0 && a + w <= MAX_SIZE
    ensures ReadValue(mem, e, w, a) == Value(Assemble(e, mem[a..a + w]))
  {
    CheckOk(a, w);
  }

  lemma PartsAligned(a: Word, w: Word, n: Word)
    requires IsWidth(w) && IsWidth(n) && w % n == 0 && a % w == 0
    ensures a % n == 0 && a + n * (w / n) == a + w
  {
    PartCount(w, n);
    DivisibleIsMod(a, w);
    DivisibleIsMod(a, n);
    DivisibleNarrower(a, w, n);
  }

  lemma PartCount(w: Word, n: Word)
    requires IsWidth(w) && IsWidth(n) && w % n == 0
    ensures n * (w / n) == w && n <= w
  {
    assert w == n * (w / n) + w % n;
  }

  /** `count` aligned parts of width n, starting at a. */
  lemma {:induction false} PartsCover(mem: seq<Byte>, e: Endian, n: Word, a: Word, end: nat, count: nat)
    requires |mem| == MAX_SIZE && IsWidth(n) && a % n == 0 && a + n * count == end && end <= MAX_SIZE
    ensures var parts := ReadParts(mem, e, n, a, end);
            |parts| == count && Joined(e, n, parts) == Some(Assemble(e, mem[a..end]))
    decreases count
  {
    if count == 0 {
      assert mem[a..end] == [];
      AssembleBound(e, []);
    } else {
      PartFits(n, a, end, count);
      PartsCover(mem, e, n, a + n, end, count - 1);
      FirstPart(mem, e, n, a, end);
      SplitAt(mem, a, a + n, end);
      JoinedConcat(e, n, mem[a..a + n], mem[a + n..end], ReadParts(mem, e, n, a + n, end));
    }
  }

  lemma FirstPart(mem: seq<Byte>, e: Endian, n: Word, a: Word, end: nat)
    requires |mem| == MAX_SIZE && IsWidth(n) && a % n == 0 && a + n <= end <= MAX_SIZE
    ensures ReadParts(mem, e, n, a, end) == [Value(Assemble(e, mem[a..a + n]))] + ReadParts(mem, e, n, a + n, end)
  {
    CheckOk(a, n);
  }

  lemma {:induction false} JoinedConcat(e: Endian, n: nat, head: seq<Byte>, tail: seq<Byte>, rest: seq<ReadResult>)
    requires |head| == n && |tail| == n * |rest| && Joined(e, n, rest) == Some(Assemble(e, tail))
    ensures Joined(e, n, [Value(Assemble(e, head))] + rest) == Some(Assemble(e, head + tail))
  {
    JoinedStep(e, n, Assemble(e, head), rest, Assemble(e, tail));
    AssembleConcat(e, head, tail);
  }

  lemma JoinedStep(e: Endian, n: nat, first: nat, rest: seq<ReadResult>, value: nat)
    requires Joined(e, n, rest) == Some(value)
    ensures Joined(e, n, [Value(first)] + rest)
         == Some(if e == Little then first + Pow256(n) * value else Pow256(n * |rest|) * first + value)
  {
    assert ([Value(first)] + rest)[1..] == rest;
  }

  lemma SplitAt(mem: seq<Byte>, from: nat, mid: nat, to: nat)
    requires from <= mid <= to <= |mem|
    ensures mem[from..to] == mem[from..mid] + mem[mid..to]
  {
  }

  lemma PartFits(n: Word, a: Word, end: nat, count: nat)
    requires count > 0 && IsWidth(n) && a % n == 0 && a + n * count == end
    ensures (a + n) % n == 0 && a + n + n * (count - 1) == end && a + n <= end
  {
    assert n * count == n + n * (count - 1);
    assert n * (count - 1) >= 0;
  }

  /** Reading back what was written, at the same width and byte order. */
  lemma ReadBack(mem: seq<Byte>, e: Endian, w: Word, a: Word, x: nat)
    requires |mem| == MAX_SIZE && Check(a, w) == Ok && x < Pow256(w)
    ensures ReadValue(WriteValue(mem, e, w, a, x), e, w, a) == Value(x)
  {
    CheckOk(a, w);
    assert WriteValue(mem, e, w, a, x)[a..a + w] == Disassemble(e, x, w);
    AssembleDisassemble(e, x, w);
  }

  /** Narrow reads of a written value, at any narrower width, join to the value. */
  lemma PartsRecombine(mem: seq<Byte>, e: Endian, w: Word, n: Word, a: Word, x: nat)
    requires |mem| == MAX_SIZE && Check(a, w) == Ok && IsWidth(n) && w % n == 0 && x < Pow256(w)
    ensures a + w <= MAX_SIZE
    ensures Joined(e, n, ReadParts(WriteValue(mem, e, w, a, x), e, n, a, a + w)) == Some(x)
  {
    PartsJoin(WriteValue(mem, e, w, a, x), e, w, n, a);
    ReadBack(mem, e, w, a, x);
  }

  // ----- The other byte order -----

  function OtherOrder(e: Endian): Endian {
    if e == Little then Big else Little
  }

  /** Memory with w bytes in reverse order. */
  function Swapped(mem: seq<Byte>, a: nat, w: nat): (mem': seq<Byte>)
    requires a + w <= |mem|
    ensures |mem'| == |mem|
  {
    mem[..a] + Reverse(mem[a..a + w]) + mem[a + w..]
  }

  /** Accessing memory in the other byte order is accessing it with the bytes of the access reversed. */
  lemma OtherOrderAccess(mem: seq<Byte>, e: Endian, w: Word, a: Word, x: nat)
    requires |mem| == MAX_SIZE && Check(a, w) == Ok
    ensures a + w <= MAX_SIZE
    ensures ReadValue(mem, OtherOrder(e), w, a) == ReadValue(Swapped(mem, a, w), e, w, a)
    ensures WriteValue(mem, OtherOrder(e), w, a, x) == Swapped(WriteValue(mem, e, w, a, x), a, w)
  {
    CheckOk(a, w);
    var bytes := mem[a..a + w];
    SliceOfMiddle(mem[..a], Reverse(bytes), mem[a + w..], 0, w);
    assert Swapped(mem, a, w)[a..a + w] == Reverse(bytes);
    ReverseTwice(bytes);
    var written := Disassemble(e, x, w);
    ReverseTwice(ToBytes(x, w));
    assert Disassemble(OtherOrder(e), x, w) == Reverse(written);
    SwappedMiddle(mem[..a], written, mem[a + w..]);
  }

  lemma SwappedMiddle(pre: seq<Byte>, mid: seq<Byte>, post: seq<Byte>)
    ensures Swapped(pre + mid + post, |pre|, |mid|) == pre + Reverse(mid) + post
  {
    var all := pre + mid + post;
    assert all[..|pre|] == pre && all[|pre|..|pre| + |mid|] == mid && all[|pre| + |mid|..] == post;
  }
}

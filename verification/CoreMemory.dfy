/** The emulator's own memory: range check, block writes and program loading. */
module CoreMemory {
  import opened Bits
  import opened ByteOrder

  datatype Status = Ok | InvalidArgument | AddressOutOfRange | UnalignedPc

  /** mips64_memory_range_is_valid on 64-bit operands. */
  predicate RangeIsValid(memorySize: Word, address: Word, size: Word) {
    if address > memorySize then false else size <= Wrap(memorySize - address)
  }

  /** The check agrees with unbounded arithmetic, an empty range at the very end included. */
  lemma RangeIsExact(memorySize: Word, address: Word, size: Word)
    ensures RangeIsValid(memorySize, address, size) <==> (address as int) + size <= memorySize
  {
  }

  /** A block write: where, and the bytes behind the pointer if it is not null. */
  datatype Block = Block(address: Word, data: Option<seq<Byte>>, size: Word)

  /** The pointer, when there is one, refers to at least `size` bytes. */
  predicate Readable(b: Block) {
    b.data.Some? ==> |b.data.value| >= b.size
  }

  /** The checks of mips64_write_memory, in order. */
  function WriteStatus(memorySize: Word, b: Block): Status {
    if b.size != 0 && b.data.None? then InvalidArgument
    else if !RangeIsValid(memorySize, b.address, b.size) then AddressOutOfRange
    else Ok
  }

  predicate CoversByte(memorySize: Word, b: Block, x: nat) {
    WriteStatus(memorySize, b) == Ok && b.address <= x < b.address + b.size
  }

  /** Memory after a block write. */
  function WriteBlock(mem: seq<Byte>, b: Block): (mem': seq<Byte>)
    requires |mem| < TWO_64 && Readable(b)
    ensures |mem'| == |mem|
  {
    if WriteStatus(|mem|, b) == Ok && b.size != 0 then
      RangeIsExact(|mem|, b.address, b.size);
      mem[..b.address] + b.data.value[..b.size] + mem[b.address + b.size..]
    else mem
  }

  lemma WriteBlockAt(mem: seq<Byte>, b: Block, x: nat)
    requires |mem| < TWO_64 && Readable(b) && x < |mem|
    ensures WriteBlock(mem, b)[x]
         == if CoversByte(|mem|, b, x) then b.data.value[x - b.address] else mem[x]
  {
    RangeIsExact(|mem|, b.address, b.size);
  }

  function WriteBlocks(mem: seq<Byte>, blocks: seq<Block>): (mem': seq<Byte>)
    requires |mem| < TWO_64 && forall k :: 0 <= k < |blocks| ==> Readable(blocks[k])
    ensures |mem'| == |mem|
  {
    if blocks == [] then mem
    else WriteBlock(WriteBlocks(mem, blocks[..|blocks| - 1]), blocks[|blocks| - 1])
  }

  /** The block that last wrote byte x, counting from the end; -1 if none did. */
  function LastWriter(memorySize: Word, blocks: seq<Block>, x: nat): (k: int)
    ensures -1 <= k < |blocks|
    ensures k >= 0 ==> CoversByte(memorySize, blocks[k], x)
    ensures forall j :: k < j < |blocks| ==> !CoversByte(memorySize, blocks[j], x)
  {
    if blocks == [] then -1
    else
      var n := |blocks| - 1;
      if CoversByte(memorySize, blocks[n], x) then n
      else
        var k := LastWriter(memorySize, blocks[..n], x);
        assert forall j :: 0 <= j < n ==> blocks[..n][j] == blocks[j];
        k
  }

  /** Any sequence of writes is last-writer-wins: each byte holds what the last accepted write covering it
      supplied, and bytes no accepted write covers are unchanged. */
  lemma {:induction false} LastWriterWins(mem: seq<Byte>, blocks: seq<Block>, x: nat)
    requires |mem| < TWO_64 && x < |mem|
    requires forall k :: 0 <= k < |blocks| ==> Readable(blocks[k])
    ensures var k := LastWriter(|mem|, blocks, x);
            WriteBlocks(mem, blocks)[x] == if k < 0 then mem[x] else blocks[k].data.value[x - blocks[k].address]
  {
    if blocks == [] {
    } else {
      var n := |blocks| - 1;
      LastWriterWins(mem, blocks[..n], x);
      LastWriterStep(|mem|, blocks, x);
      WriteBlockAt(WriteBlocks(mem, blocks[..n]), blocks[n], x);
    }
  }

  lemma {:induction false} LastWriterStep(memorySize: Word, blocks: seq<Block>, x: nat)
    requires blocks != []
    ensures var n := |blocks| - 1;
            var k := if CoversByte(memorySize, blocks[n], x) then n else LastWriter(memorySize, blocks[..n], x);
            LastWriter(memorySize, blocks, x) == k
  {
  }

  // ----- Instruction fetch -----

  /** C's || on integers. */
  function LogicalOr(x: nat, y: nat): nat {
    if x != 0 || y != 0 then 1 else 0
  }

  /** mips64_read_u32_from_bytes, which joins the shifted bytes with || where | is meant. */
  function ReadU32(b: seq<Byte>, e: Endian): nat
    requires |b| == 4
  {
    if e == Big then LogicalOr(LogicalOr(LogicalOr(Shl(b[0], 24), Shl(b[1], 16)), Shl(b[2], 8)), b[3])
    else LogicalOr(LogicalOr(LogicalOr(b[0], Shl(b[1], 8)), Shl(b[2], 16)), Shl(b[3], 24))
  }

  /** The fetched word is 0 or 1, and the instruction in memory exactly when that instruction is 0 or 1. */
  lemma {:induction false} FetchExact(b: seq<Byte>, e: Endian)
    requires |b| == 4
    ensures ReadU32(b, e) == if Assemble(e, b) == 0 then 0 else 1
    ensures ReadU32(b, e) == Assemble(e, b) <==> Assemble(e, b) <= 1
  {
    ReadsAFlag(b, e);
    ValueIsZero(b, e);
  }

  lemma {:induction false} ValueIsZero(b: seq<Byte>, e: Endian)
    requires |b| == 4
    ensures Assemble(e, b) == 0 <==> b[0] == 0 && b[1] == 0 && b[2] == 0 && b[3] == 0
  {
    ValueOfFour(b, e);
    QuadIsZero(b[0], b[1], b[2], b[3]);
    QuadIsZero(b[3], b[2], b[1], b[0]);
  }

  lemma QuadIsZero(x0: Byte, x1: Byte, x2: Byte, x3: Byte)
    ensures Quad(x0, x1, x2, x3) == 0 <==> x0 == 0 && x1 == 0 && x2 == 0 && x3 == 0
  {
  }

  lemma {:induction false} ReadsAFlag(b: seq<Byte>, e: Endian)
    requires |b| == 4
    ensures ReadU32(b, e) == if b[0] == 0 && b[1] == 0 && b[2] == 0 && b[3] == 0 then 0 else 1
  {
    ShlIsZero(b[0], 24);
    ShlIsZero(b[1], 16);
    ShlIsZero(b[2], 8);
    ShlIsZero(b[1], 8);
    ShlIsZero(b[2], 16);
    ShlIsZero(b[3], 24);
  }

  lemma ShlIsZero(x: nat, k: nat)
    ensures Shl(x, k) == 0 <==> x == 0
  {
    if x > 0 {
      MulAtLeast(Pow2(k), x, 0);
    }
  }

  /** The word with the given bytes, the least significant first. */
  function Quad(x0: int, x1: int, x2: int, x3: int): int {
    x0 + 0x100 * x1 + 0x1_0000 * x2 + 0x100_0000 * x3
  }

  lemma ValueOfFour(b: seq<Byte>, e: Endian)
    requires |b| == 4
    ensures Assemble(e, b) == if e == Big then Quad(b[3], b[2], b[1], b[0]) else Quad(b[0], b[1], b[2], b[3])
  {
    var r := if e == Big then Reverse(b) else b;
    assert r[1..][1..] == r[2..] && r[2..][1..] == r[3..];
    assert FromBytes(r[3..]) == r[3] + 256 * FromBytes(r[4..]);
    assert FromBytes(r[2..]) == r[2] + 256 * FromBytes(r[3..]);
    assert FromBytes(r[1..]) == r[1] + 256 * FromBytes(r[2..]);
  }

  // ----- Loading a program -----

  /** A program image. */
  datatype Image = Image(block: Block, entryPoint: Word, setPc: bool)

  /** The status of mips64_load_program: the write first, then the entry point. */
  function LoadStatus(memorySize: Word, image: Image): Status {
    var written := WriteStatus(memorySize, image.block);
    if written != Ok then written
    else if image.setPc && image.entryPoint % 4 != 0 then UnalignedPc
    else Ok
  }

  /** The block holds what memory holds already. */
  predicate AlreadyThere(mem: seq<Byte>, b: Block)
    requires Readable(b)
  {
    b.size == 0 ||
    (b.data.Some? && (b.address as int) + b.size <= |mem|
     && mem[b.address..b.address + b.size] == b.data.value[..b.size])
  }

  /** A load that fails leaves memory as it was exactly when the write is what was refused, or the entry point
      cannot be refused, or there was nothing to write. */
  lemma FailedLoadExact(mem: seq<Byte>, image: Image)
    requires |mem| < TWO_64 && Readable(image.block)
    ensures (LoadStatus(|mem|, image) != Ok ==> WriteBlock(mem, image.block) == mem)
       <==> || WriteStatus(|mem|, image.block) != Ok || !image.setPc || image.entryPoint % 4 == 0
            || AlreadyThere(mem, image.block)
  {
    if WriteStatus(|mem|, image.block) == Ok {
      WriteIsIdle(mem, image.block);
    }
  }

  /** An accepted write changes nothing exactly when memory holds the block already. */
  lemma WriteIsIdle(mem: seq<Byte>, b: Block)
    requires |mem| < TWO_64 && Readable(b) && WriteStatus(|mem|, b) == Ok
    ensures WriteBlock(mem, b) == mem <==> AlreadyThere(mem, b)
  {
    RangeIsExact(|mem|, b.address, b.size);
    if b.size != 0 {
      var after, end := WriteBlock(mem, b), b.address + b.size;
      var data := b.data.value[..b.size];
      MiddleOf(mem[..b.address], data, mem[end..]);
      assert after[b.address..end] == data;
      assert mem == mem[..b.address] + mem[b.address..end] + mem[end..];
    }
  }

  lemma MiddleOf(pre: seq<Byte>, mid: seq<Byte>, post: seq<Byte>)
    ensures (pre + mid + post)[|pre|..|pre| + |mid|] == mid
  {
  }

  /** On every memory some image fails to load and stays in memory: one byte, with an unaligned entry point. */
  lemma RefusedImageStays(mem: seq<Byte>)
    requires 0 < |mem| < TWO_64
    ensures var image := Image(Block(0, Some([255 - mem[0]]), 1), 2, true);
            LoadStatus(|mem|, image) == UnalignedPc && WriteBlock(mem, image.block)[0] != mem[0]
  {
    WriteBlockAt(mem, Block(0, Some([255 - mem[0]]), 1), 0);
  }

  // ----- The emulator object -----

  /** The configuration, with the endianness as the C integer it is. */
  datatype Config = Config(memorySize: Word, resetPc: Word, endian: int)

  /** The checks of mips64_create, in order; None is a null pointer. */
  function CreateStatus(config: Option<Config>): Status {
    match config
    case None => InvalidArgument
    case Some(c) =>
      if c.memorySize == 0 || (c.endian != 0 && c.endian != 1) then InvalidArgument
      else if c.resetPc % 4 != 0 then UnalignedPc
      else if c.resetPc > c.memorySize then AddressOutOfRange
      else Ok
  }

  lemma LowTwoBits(x: Word)
    ensures BitAnd(x, 3) == x % 4
  {
    assert Pow2(2) == 4;
    MaskIsMod(2, x);
  }

  class Emulator {
    const config: Config
    const memory: array<Byte>
    var pc: Word

    ghost predicate Valid() {
      0 < memory.Length < TWO_64 && memory.Length == config.memorySize
    }

    /** The allocations and assignments of mips64_create, once its checks have passed. */
    constructor (config: Config)
      requires CreateStatus(Some(config)) == Ok
      ensures Valid() && fresh(memory) && this.config == config
      ensures memory[..] == seq(config.memorySize, _ => 0) && pc == config.resetPc
    {
      this.config := config;
      memory := new Byte[config.memorySize](_ => 0);
      pc := config.resetPc;
    }

    /** mips64_create: an emulator with zeroed memory, or a status that says which check failed. */
    static method Create(config: Option<Config>) returns (status: Status, emulator: Emulator?)
      ensures status == CreateStatus(config) && (emulator != null <==> status == Ok)
      ensures emulator != null ==>
                && fresh(emulator) && fresh(emulator.memory) && emulator.Valid() && config == Some(emulator.config)
                && emulator.memory[..] == seq(emulator.config.memorySize, _ => 0)
                && emulator.pc == emulator.config.resetPc
    {
      emulator := null;
      if config.None? {
        return InvalidArgument, null;
      }
      var c := config.value;
      LowTwoBits(c.resetPc);
      if c.memorySize == 0 {
        status := InvalidArgument;
      } else if c.endian != 0 && c.endian != 1 {
        status := InvalidArgument;
      } else if BitAnd(c.resetPc, 3) != 0 {
        status := UnalignedPc;
      } else if c.resetPc > c.memorySize {
        status := AddressOutOfRange;
      } else {
        emulator := new Emulator(c);
        status := Ok;
      }
    }

    /** mips64_write_memory. */
    method WriteMemory(b: Block) returns (status: Status)
      requires Valid() && Readable(b)
      modifies memory
      ensures status == WriteStatus(memory.Length, b)
      ensures memory[..] == WriteBlock(old(memory[..]), b)
    {
      if b.size != 0 && b.data.None? {
        return InvalidArgument;
      }
      if !RangeIsValid(memory.Length, b.address, b.size) {
        return AddressOutOfRange;
      }
      RangeIsExact(memory.Length, b.address, b.size);
      if b.size != 0 {
        forall i | 0 <= i < b.size {
          memory[b.address + i] := b.data.value[i];
        }
        BlockPointwise(memory[..], old(memory[..]), b);
      }
      status := Ok;
    }

    /** mips64_set_pc. */
    method SetPc(value: Word) returns (status: Status)
      requires Valid()
      modifies `pc
      ensures status == if value % 4 == 0 then Ok else UnalignedPc
      ensures pc == if value % 4 == 0 then value else old(pc)
    {
      LowTwoBits(value);
      if BitAnd(value, 3) != 0 {
        return UnalignedPc;
      }
      pc := value;
      status := Ok;
    }

    /** mips64_load_program: write the image, then set the entry point. */
    method LoadProgram(image: Image) returns (status: Status)
      requires Valid() && Readable(image.block)
      modifies memory, `pc
      ensures status == LoadStatus(memory.Length, image)
      ensures memory[..] == WriteBlock(old(memory[..]), image.block)
      ensures pc == if status == Ok && image.setPc then image.entryPoint else old(pc)
    {
      status := WriteMemory(image.block);
      if status != Ok {
        return;
      }
      if image.setPc {
        status := SetPc(image.entryPoint);
      }
    }
  }

  lemma BlockPointwise(after: seq<Byte>, mem: seq<Byte>, b: Block)
    requires |after| == |mem| < TWO_64 && Readable(b) && WriteStatus(|mem|, b) == Ok
    requires (b.address as int) + b.size <= |mem| && b.size > 0
    requires forall x :: b.address <= x < b.address + b.size ==> after[x] == b.data.value[x - b.address]
    requires forall x :: 0 <= x < |mem| && !(b.address <= x < b.address + b.size) ==> after[x] == mem[x]
    ensures after == WriteBlock(mem, b)
  {
    forall x | 0 <= x < |mem| ensures after[x] == WriteBlock(mem, b)[x] {
      WriteBlockAt(mem, b, x);
    }
  }
}

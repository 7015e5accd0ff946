# A verified model of the MIPS64 emulator

A Dafny model of three linked parts of the emulator, with proofs over all inputs, runs and states.
`dafny verify dfyconfig.toml` checks it.

**The x86-64 JIT emitter** is treated as the small compiler it is, in layers:

| module | what it holds |
|---|---|
| `X64Encoding` | instruction forms, their bytes (Intel SDM Volume 2A, sections 2.1.3 and 2.2.1), a decoder, and the two as inverses |
| `X64Machine` | 16 registers, flags, byte memory; execution of instructions and of bytes |
| `JitIr` | the emitter's operations, the instructions each call writes (`Lower`), and what each means on registers where -1 reads as zero (`IrStep`) |
| `JitSimulation`, `JitWitnesses`, `JitMemoryExactness`, `JitExactness` | the code computes the operation if and only if its operands are `Sound` |
| `X64Arithmetic`, `JitMeaning` | what the machine's arithmetic and the emitted code compute, in plain numbers |
| `JitPrograms`, `JitControl`, `JitCalls` | whole straight-line programs, their frame, the branches, and calls |
| `JitFloats` | the floating-point calls, with uninterpreted operations |
| `CodeTables`, `JitTables` | what any run of emitter calls leaves in the buffer, `info1` and `info2` |
| `JitEmitter` | the emitter object itself, writing bytes into arrays, proved to take one step of those tables per call |

**The guest memory and the readers**: `ByteOrder` (values and bytes, and the loops that convert between
them), `GuestMemory`, `ElfLoader` (readers and symbol hash), `CoreMemory`.

**Decode, execute and register file**: `InstructionDecode` and `Cpu`.

`Bits` holds bitwise operations on natural numbers and their arithmetic meaning.

## Where the code does not do what it is for

Each of these is proved, with the exact condition under which the code is right.

- `JitIr.Sound` lists, per operation, the operand combinations for which the emitted code is right;
  `JitExactness.SoundIffCorrect` proves that it leaves out no right one and lets in no wrong one. What it
  shuts out: a second operand overwritten by the MOV of the first (`t == d`, `s != d`), SUB from R0, AND
  with one R0, XOR of a register with itself, LESS with R0 on the left only, shifts whose destination is
  RCX or RSP, whose count is RSP, or whose count is R0 with different source and destination, DIV whose
  destination or divisor is RDX or RSP, whose dividend is RSP or whose divisor is RAX alone, loads from R0
  or R12, ADDI of a register (except adding 0 in place) or into R0, immediate shifts (except of R0, and in
  place by -1 or a multiple of 64), and stores whose offset is not the number of the source register or
  whose base is R0, RSP or R12.
- DIV fills only EDX before the 64-bit IDIV, so it needs a dividend below 2^63 with bit 31 clear
  (`JitExactness.DivExact`, and measured by remainders `JitMeaning.DivCodeExact`).
- R12, which the emitter offers as register 4, cannot be a memory base: the SIB byte is missing. Alone the
  bytes are no instruction (`X64Encoding.SibBaseIncomplete`); with code after them the load swallows a byte
  of it (`JitMemoryExactness.LoadReadsOn`), and reads the intended address for one family of offsets only
  (`JitMemoryExactness.ReadOnAddressExact`).
- `info2` holds 16-bit indices and goes wrong from call 2^16 on (`JitTables.DispsExactOverRuns`).
- `mips64_memory_reset` says that it keeps the byte order; it clears it to little endian
  (`GuestMemory.Memory.Reset`).
- The decoded immediate keeps 12 bits (`InstructionDecode.ImmediateExact`).
- Instruction fetch joins bytes with `||` (`CoreMemory.FetchExact`).
- `mips64_load_program` leaves the image in memory when it refuses the entry point
  (`CoreMemory.RefusedImageStays`); a failing load changes nothing exactly under the condition of
  `CoreMemory.FailedLoadExact`.

## Reading the model

- C's fixed-width integers are integers with explicit bounds and explicit wrap-around; pointers into
  buffers are offsets into arrays.
- `JitParsing.i1` is declared as a pointer but used as a counter; it is modelled as a 16-bit counter. The
  buffers must have room for what a call writes, which the source leaves to its caller.
- `JitParsing` carries two ghost fields: the instructions the current call has still to write, and the
  buffer contents once it has. `Emitted` says that nothing is left to write.
- The flags are undefined after arithmetic, so no proof relies on them there. A 32-bit load zero-extends.
- In the operation language RAX is defined only after being written by an operation that does not itself
  use it as scratch space, and stack slots the code has used below RSP are undefined
  (`raxLive` and `frames` in `IrState`).
- The meaning given to ADDI is `d := s + i`, to SHIFTLI and SHIFTRI a shift by `i` mod 64, and to a store
  `memory[d + o] := s`, with R0 as zero throughout.
- DADDIU is opcode 0x19, which the source's enumeration does not define. Handlers run on an arbitrary
  16-bit immediate.

## Model

| member | source | states |
|---|---|---|
| X64Encoding.RoundTrip | include/mips64/jit_compiler_x64.h:140-304 | decoding the concatenated bytes of any instruction list over all form macros and the SIB forms gives that list back if and only if every opcode belongs to its form and the memory bases with low bits 4 are those of the SIB forms |
| X64Encoding.DecodeEncoded | include/mips64/jit_compiler_x64.h:73-85 | one encoded instruction followed by arbitrary bytes decodes to itself and its exact length, for every form and all registers 0..15 |
| X64Encoding.EncodeDecoded | include/mips64/jit_compiler_x64.h:140-236 | whatever the decoder accepts is a well-formed instruction whose encoding is exactly the bytes consumed |
| X64Encoding.DecodeAllSound | include/mips64/jit_compiler_x64.h:140-304 | a byte string that decodes is the encoding of the well-formed instructions it decodes to, so the decoder accepts nothing but what the macros write and the SIB forms |
| X64Encoding.SibBaseIncomplete | include/mips64/jit_compiler_x64.h:174-203 | what the macros write for a memory base with low bits 4 is not a whole instruction, for all three memory forms |
| X64Encoding.SibBaseReadsOn | include/mips64/jit_compiler_x64.h:174-203 | as soon as a byte follows it decodes to another, longer instruction: the first displacement byte is the SIB byte, the other three and the byte that follows the displacement |
| X64Encoding.PrefixCode | include/mips64/jit_compiler_x64.h:140-236 | no well-formed instruction's bytes are a prefix of a different one's |
| X64Machine.RunBytesIsRun | include/mips64/jit_compiler_x64.h:140-304 | executing the bytes by decoding each instruction in turn is executing the instruction list they encode |
| X64Machine.CompareIsSigned | include/mips64/jit_compiler_x64.h:260-261 | after CMP, ZF is equality and SF differs from OF exactly for signed less-than |
| X64Machine.PushPop | include/mips64/jit_compiler_x64.h:217-233 | POP reads what PUSH stored and restores the stack pointer |
| X64Machine.PushFrame | include/mips64/jit_compiler_x64.h:217-224 | PUSH leaves every byte outside the eight below the stack pointer unchanged |
| JitExactness.SoundIffCorrect | src/mips64/jit_compiler_x64.c:3-288 | for every ADD, SUB, MUL, DIV, SHIFTL, SHIFTR, AND, OR, XOR, LESS, ADDI, SHIFTLI, SHIFTRI, load and store and all operands: the emitted bytes compute the operation from every matching state if and only if the operands satisfy `Sound` |
| JitExactness.DivExact | src/mips64/jit_compiler_x64.c:124-140 | with sound operands, on every state where the quotient is defined, DIV's code is right if and only if the dividend is below 2^63 with bit 31 clear |
| JitExactness.DivWithR0 | src/mips64/jit_compiler_x64.c:127-129 | DIV with an R0 operand sets the destination to 0 and changes nothing else |
| JitExactness.UnsoundAlu | src/mips64/jit_compiler_x64.c:57-122 | each operand combination of ADD, SUB, MUL, AND, OR, XOR outside `Sound` has a state on which the code is wrong |
| JitExactness.UnsoundDiv | src/mips64/jit_compiler_x64.c:131-137 | DIV is wrong when the destination is RDX or RSP, the dividend is RSP, or the divisor is RDX, RSP or an overwritten RAX |
| JitExactness.UnsoundShift | src/mips64/jit_compiler_x64.c:142-182 | shifts are wrong when the destination is RCX or RSP, the count is RSP or overwritten, or the count is R0 and the operands differ |
| JitExactness.UnsoundLess | src/mips64/jit_compiler_x64.c:279-280 | LESS with the zero register as first operand compares the wrong way round on some state |
| JitExactness.UnsoundAddImm | src/mips64/jit_compiler_x64.c:76-87 | ADDI of a register emits nothing, and with R0 as destination it overwrites RDI, which -1 encodes: each operand combination outside `Sound` has a state on which the code is wrong |
| JitExactness.UnsoundShiftImm | src/mips64/jit_compiler_x64.c:184-210 | immediate shifts emit an instruction only for the immediate -1, and then shift the number of the source register when it is not the destination: wrong outside `Sound` |
| JitMemoryExactness.UnsoundLoad | src/mips64/jit_compiler_x64.c:3-15 | loads from R0 emit nothing and leave the old value, and the bytes of a load based on R12 end before the instruction does |
| JitMemoryExactness.UnsoundStore | src/mips64/jit_compiler_x64.c:17-55 | stores are wrong whenever the number of the source register is not the offset (0 for RSP), an operand is R0, or the base is RSP, R12 or the RAX that RSP goes through |
| JitMemoryExactness.LoadReadsOn | src/mips64/jit_compiler_x64.c:31-42 | with any code after it, a load based on R12 takes the first byte of that code into its address and execution goes on one byte late |
| JitMemoryExactness.ReadOnAddressExact | src/mips64/jit_compiler_x64.c:31-42 | the address it then reads is the intended one from every register file if and only if the four offset bytes and the byte that follows are all the same and name base R12 without index |
| JitSimulation.SoundIsCorrectAt | src/mips64/jit_compiler_x64.c:3-288 | the emitted bytes of a sound operation, run from any machine holding a language state, fall through into one holding the state the operation computes |
| JitSimulation.AluRuns | src/mips64/jit_compiler_x64.c:57-122 | the MOV-then-operate path changes only the destination, to the three-operand result |
| JitSimulation.LessCorrect | src/mips64/jit_compiler_x64.c:272-288 | CMP, SETL, MOVZX, MOV leave 1 or 0 for signed less-than, comparison with R0 included |
| JitSimulation.LoadCorrect | src/mips64/jit_compiler_x64.c:31-42 | loads fetch 8 bytes, or 4 zero-extended, at base plus sign-extended offset, rerouting RSP through RAX |
| JitSimulation.StoreRuns | src/mips64/jit_compiler_x64.c:17-55 | what a store does on any operands: it writes the register numbered by the offset at base plus the number of the source register |
| JitSimulation.StoreCorrect | src/mips64/jit_compiler_x64.c:17-55 | under `Sound` that is the store meant, and machine and language memory still agree |
| JitSimulation.AddImmCorrect | src/mips64/jit_compiler_x64.c:76-87 | sound ADDI adds the immediate |
| JitSimulation.ShiftImmCorrect | src/mips64/jit_compiler_x64.c:184-210 | sound immediate shifts shift by the immediate mod 64 |
| JitSimulation.ShiftEffect | src/mips64/jit_compiler_x64.c:154-159 | PUSH RCX, MOV RCX, shift, POP RCX changes one register, to the value shifted by the count mod 64, and one stack slot below RSP |
| JitSimulation.DivEffect | src/mips64/jit_compiler_x64.c:131-137 | the PUSH, MOV, CDQ, IDIV, MOV, POP sequence: the exact quotient it leaves in RAX and d, RDX and RSP restored, or a fault, for every dividend |
| JitSimulation.SoundIsWellFormed | src/mips64/jit_compiler_x64.c:3-288 | the code of a sound operation is decodable |
| JitIr.MacroBytes | include/mips64/jit_compiler_x64.h:217-262 | the bytes of the register macros, each opcode written as a number |
| JitIr.FieldMacroBytes | include/mips64/jit_compiler_x64.h:281-286 | those of the macros with a 32-bit field |
| JitIr.JumpBytes | include/mips64/jit_compiler_x64.h:205-239 | those of the jumps and the call |
| X64Arithmetic.SignedReading | include/mips64/jit_compiler_x64.h:255 | the signed reading of a word is in the signed range and agrees with it modulo 2^64 |
| X64Arithmetic.SignExtensions | include/mips64/jit_compiler_x64.h:275-281 | sign extension keeps the signed number of a byte or a 32-bit word |
| X64Arithmetic.TestOfSelf | include/mips64/jit_compiler_x64.h:205-215 | TEST EAX, EAX tells whether it is zero and whether it is negative |
| X64Arithmetic.IdivLaw | include/mips64/jit_compiler_x64.h:255 | IDIV leaves the truncated quotient in RAX and the remainder in RDX, which with the divisor make up the dividend |
| X64Arithmetic.AddCounts | include/mips64/jit_compiler_x64.h:249 | adding 0 changes nothing, and one more in the second operand counts the sum up by one, modulo 2^64: this fixes addition |
| X64Arithmetic.SubUndoesAdd | include/mips64/jit_compiler_x64.h:250 | subtraction undoes addition and addition subtraction |
| X64Arithmetic.MulAdds | include/mips64/jit_compiler_x64.h:264 | multiplying by 0 gives 0, and one more in the second factor adds the first |
| X64Arithmetic.LogicBits | include/mips64/jit_compiler_x64.h:251-253 | each bit of AND, OR and XOR follows the truth table of the operands' bits |
| X64Arithmetic.LeftShiftDoubles | include/mips64/jit_compiler_x64.h:259 | one more place to the left doubles modulo 2^64 |
| X64Arithmetic.RightShiftFloors | include/mips64/jit_compiler_x64.h:258 | the arithmetic right shift is the signed value over 2^count, rounded down |
| X64Arithmetic.QuotientLaw | include/mips64/jit_compiler_x64.h:255 | the quotient leaves a remainder smaller than the divisor and with the sign of the dividend |
| X64Arithmetic.QuotientUnique | include/mips64/jit_compiler_x64.h:255 | only one quotient does |
| X64Arithmetic.LoadFour | include/mips64/jit_compiler_x64.h:285 | a 32-bit load reads four bytes, the first least significant |
| X64Arithmetic.LoadEight | include/mips64/jit_compiler_x64.h:283 | a 64-bit load reads eight |
| JitMeaning.SoundInNumbers | src/mips64/jit_compiler_x64.c:3-288 | the condition `Sound` with every register and immediate written as a number |
| JitMeaning.AddCode | src/mips64/jit_compiler_x64.c:57-74 | the bytes of sound ADD leave (x + y) mod 2^64 in the destination and change nothing else |
| JitMeaning.SubCode | src/mips64/jit_compiler_x64.c:90-109 | likewise (x - y) mod 2^64 |
| JitMeaning.MulCode | src/mips64/jit_compiler_x64.c:111-122 | likewise (x * y) mod 2^64 |
| JitMeaning.AddThenSub | src/mips64/jit_compiler_x64.c:57-109 | the bytes of ADD d,s,t and then SUB d,d,t leave what s held, or 0 if t is d |
| JitMeaning.LogicCode | src/mips64/jit_compiler_x64.c:212-270 | the bytes of sound AND, OR and XOR combine the operands bit by bit |
| JitMeaning.ShiftCode | src/mips64/jit_compiler_x64.c:142-182 | the bytes of sound SHIFTL multiply by 2^count without the lost bits, those of SHIFTR divide the signed value rounding down, count modulo 64; no other register changes |
| JitMeaning.ShiftImmCode | src/mips64/jit_compiler_x64.c:184-210 | the same for SHIFTLI and SHIFTRI |
| JitMeaning.AddImmCode | src/mips64/jit_compiler_x64.c:76-87 | the bytes of sound ADDI leave (x + i) mod 2^64 |
| JitMeaning.LessCode | src/mips64/jit_compiler_x64.c:272-288 | the bytes of sound LESS leave 1 if the first operand is smaller in two's complement and 0 otherwise, and change no other register but RAX |
| JitMeaning.DivCode | src/mips64/jit_compiler_x64.c:124-140 | on its dividends the bytes of sound DIV leave the truncated quotient, and change no other register but RAX |
| JitMeaning.DivCodeExact | src/mips64/jit_compiler_x64.c:124-140 | with sound operands and a nonzero divisor the bytes of DIV leave the truncated quotient if and only if the dividend is below 2^63 with bit 31 clear |
| JitMeaning.LoadCode | src/mips64/jit_compiler_x64.c:3-42 | the bytes of sound LOAD32 and LOAD64 leave the number in four or eight bytes, zero-extended |
| JitMeaning.StoreCode | src/mips64/jit_compiler_x64.c:17-55 | the bytes of sound STORE32 and STORE64 write the low half or the whole of the source to four or eight bytes, and no other byte differs |
| JitMeaning.StoreThenLoad | src/mips64/jit_compiler_x64.c:3-55 | a store and a load of the same width and place give the source register, or its low half |
| JitPrograms.ProgramCorrect | src/mips64/jit_compiler_x64.c:3-288 | meaning preservation for whole straight-line programs with arithmetic, shifts, comparisons, divisions, immediates, loads and stores |
| JitPrograms.RegisterProgramMeaning | src/mips64/jit_compiler_x64.c:57-288 | from every machine state, a sound register program ends with each register but RAX equal to what a three-operand interpreter with R0 = 0, arithmetic mod 2^64 and shifts mod 64 computes |
| JitPrograms.ProgramDecodes | src/mips64/jit_compiler_x64.c:3-288 | the bytes of a sound program decode to the instructions of its operations, in order |
| JitPrograms.RunFromEntry | src/mips64/jit_compiler_x64.c:3-288 | running the buffer from any `info1` entry carries out that call and all later ones |
| JitPrograms.ProgramFrame | src/mips64/jit_compiler_x64.c:31-182 | over any sound program, divisions included: RSP, every register not written (RAX aside) and, without stores, all memory at or above RSP are unchanged; the run can only stop early at a faulting division |
| JitPrograms.DivKeeps | src/mips64/jit_compiler_x64.c:124-140 | one DIV, on any values, keeps that frame or faults |
| JitCalls.CallGoes | src/mips64/jit_compiler_x64.c:331-337 | CALL pushes the address after its code and goes to its target counted from there; without a target it falls through |
| JitCalls.CallExGoes | src/mips64/jit_compiler_x64.c:339-342 | CALLEX pushes that address and goes to the address in its register |
| JitCalls.ReturnGoes | src/mips64/jit_compiler_x64.c:344-347 | RETURN goes to the word on top of the stack and pops it |
| JitCalls.CallReturns | src/mips64/jit_compiler_x64.c:331-347 | a call of a sound straight-line callee without stores, ended by RETURN, comes back to the address after the call with the stack pointer, the registers the callee does not name (RAX aside) and all bytes outside the sixteen below the stack pointer as before, unless a division of the callee faults |
| JitFloats.ArithCode | src/mips64/jit_compiler_x64.c:388-495 | scalar and packed arithmetic apply the named operation to the first operand and to the second as the move of the first has left it, the operation itself uninterpreted |
| JitFloats.ArithExact | src/mips64/jit_compiler_x64.c:388-495 | that is the operation on both operands, for all register contents, if and only if the second is not the destination or the first is |
| JitFloats.LessFBytes | src/mips64/jit_compiler_x64.c:412-418 | the opcodes and fields of UCOMISS, SETA, MOVZX and MOV |
| JitFloats.ConversionBytes | src/mips64/jit_compiler_x64.c:377-386 | those of PXOR with CVTSI2SS, and of CVTSS2SI |
| JitFloats.StoreFBytes | src/mips64/jit_compiler_x64.c:363-375 | those of MOVSS to memory, RSP going through RAX |
| JitFloats.LoadF4Bytes | src/mips64/jit_compiler_x64.c:432-444 | those of MOVUPS from memory |
| JitFloats.StoreF4Bytes | src/mips64/jit_compiler_x64.c:446-458 | those of MOVUPS to memory |
| JitControl.BranchOutcome | src/mips64/jit_compiler_x64.c:298-315 | BRANCH jumps to its target exactly on equal values (with the same register: for every target but -1) and disturbs only RAX |
| JitControl.NBranchOutcome | src/mips64/jit_compiler_x64.c:317-329 | NBRANCH jumps exactly on different values and disturbs only RAX |
| JitControl.BlockWithBranch | src/mips64/jit_compiler_x64.c:298-315 | after any sound program from a matching state, BRANCH jumps exactly when the values the language computes are equal, and the machine holds the program's state, RAX aside |
| JitControl.BlockWithNBranch | src/mips64/jit_compiler_x64.c:317-329 | the same for NBRANCH and different values |
| JitControl.BranchesAreComplements | src/mips64/jit_compiler_x64.c:298-329 | exactly one of BRANCH and NBRANCH jumps, on every machine, if and only if the target is neither 0 nor -1 (or is 0 with equal registers) |
| JitTables.StartsCutTheCode | include/mips64/jit_compiler_x64.h:364-367 | `info1` has one entry per call, equal to the total length of the earlier calls, and cuts the buffer into the calls' code |
| JitTables.CodeFromStart | include/mips64/jit_compiler_x64.h:364-367 | from `info1` entry k to the end lies the code of call k and its successors |
| JitTables.EmittedCodeIsStable | include/mips64/jit_compiler_x64.h:364-371 | later calls never change an earlier byte or table entry |
| JitTables.SliceDecodes | src/mips64/jit_compiler_x64.c:3-458 | the bytes `info1` gives a call decode to its instructions if and only if its memory base needs no SIB byte |
| JitTables.DispIffRelative | src/mips64/jit_compiler_x64.c:290-337 | a call records a displacement if and only if it wrote a JMP, CALL or Jcc, which is then its last instruction and carries its target |
| JitTables.DispsAreTheRelativeCalls | include/mips64/jit_compiler_x64.h:369-371 | in fewer than 2^16 calls `info2` is strictly increasing and holds exactly the 1-based indices of the calls that wrote a JMP, CALL or Jcc |
| JitTables.DispsExactOverRuns | include/mips64/jit_compiler_x64.h:364-371 | over runs of any length the entries name the right calls if and only if no call from number 2^16 on records a displacement |
| JitTables.DisplacementBytes | src/mips64/jit_compiler_x64.c:290-337 | the four bytes ending where a recorded call ends are its target, little endian |
| JitTables.EmitAllSnoc | src/mips64/jit_compiler_x64.c:3-495 | the tables of a run extended by a call are one table step on |
| CodeTables.StartsAreSorted | include/mips64/jit_compiler_x64.h:364-367 | start entries never decrease |
| CodeTables.DispsExact | include/mips64/jit_compiler_x64.h:364-371 | the 16-bit counter's table equals the shifted index list exactly while no recording entry reaches 2^16 |
| JitEmitter.RexIsOr | include/mips64/jit_compiler_x64.h:73-75 | the shift-and-OR expression for REX is the prefix 0100WR0B of the two registers |
| JitEmitter.ModRMIsOr | include/mips64/jit_compiler_x64.h:77-79 | the shift-and-OR expression for ModR/M is mod, reg, rm |
| JitEmitter.JitParsing.EncodeRM | include/mips64/jit_compiler_x64.h:81-85 | stores REX and ModR/M at their two positions and nothing else |
| JitEmitter.JitParsing.OpI32 | include/mips64/jit_compiler_x64.h:140-144 | writes exactly the next due instruction of this form and advances past it |
| JitEmitter.JitParsing.Op0Form | include/mips64/jit_compiler_x64.h:146-151 | likewise |
| JitEmitter.JitParsing.RRForm | include/mips64/jit_compiler_x64.h:153-157 | likewise |
| JitEmitter.JitParsing.RR0Form | include/mips64/jit_compiler_x64.h:159-164 | likewise |
| JitEmitter.JitParsing.RRFForm | include/mips64/jit_compiler_x64.h:166-172 | likewise, with source and destination exchanged |
| JitEmitter.JitParsing.RMFForm | include/mips64/jit_compiler_x64.h:174-181 | likewise |
| JitEmitter.JitParsing.RMF4Form | include/mips64/jit_compiler_x64.h:183-189 | likewise |
| JitEmitter.JitParsing.RI8Form | include/mips64/jit_compiler_x64.h:191-196 | likewise, the immediate cut to a byte |
| JitEmitter.JitParsing.RI32Form | include/mips64/jit_compiler_x64.h:198-203 | likewise, the immediate in 32 bits |
| JitEmitter.JitParsing.TestAndJump | include/mips64/jit_compiler_x64.h:205-215 | one 32-bit store spells TEST EAX, EAX and the head of the Jcc, a second its displacement |
| JitEmitter.JitParsing.PushForm | include/mips64/jit_compiler_x64.h:217-224 | one byte below register 8, otherwise a 0x41 prefix first |
| JitEmitter.JitParsing.PopForm | include/mips64/jit_compiler_x64.h:226-233 | likewise |
| JitEmitter.JitParsing.Info | include/mips64/jit_compiler_x64.h:364-367 | pushes the position and advances the 16-bit counter |
| JitEmitter.JitParsing.Info2 | include/mips64/jit_compiler_x64.h:369-371 | pushes the counter |
| JitEmitter.JitParsing.EmittedIsEmit | src/mips64/jit_compiler_x64.c:3-495 | what every emitter promises is one step of the tables |
| JitEmitter.JitParsing.CallExtendsRun | src/mips64/jit_compiler_x64.c:3-495 | if the object holds the tables of a run, after any emitter call it holds those of the longer run |
| JitEmitter.JitParsing.EmitAddSub | src/mips64/jit_compiler_x64.c:57-109 | the buffer grows by the code of the call, `info1` and `info2` by what the call records, and earlier bytes stay |
| JitEmitter.JitParsing.EmitMul | src/mips64/jit_compiler_x64.c:111-122 | likewise for MUL |
| JitEmitter.JitParsing.EmitDiv | src/mips64/jit_compiler_x64.c:124-140 | likewise for DIV |
| JitEmitter.JitParsing.EmitShift | src/mips64/jit_compiler_x64.c:142-182 | likewise for SHIFTL and SHIFTR |
| JitEmitter.JitParsing.EmitShiftImm | src/mips64/jit_compiler_x64.c:184-210 | likewise for SHIFTLI and SHIFTRI, with the branches as written |
| JitEmitter.JitParsing.EmitAddImm | src/mips64/jit_compiler_x64.c:76-87 | likewise for ADDI, with the branches as written |
| JitEmitter.JitParsing.EmitLogic | src/mips64/jit_compiler_x64.c:212-270 | likewise for AND, OR and XOR |
| JitEmitter.JitParsing.EmitLess | src/mips64/jit_compiler_x64.c:272-288 | likewise for LESS |
| JitEmitter.JitParsing.EmitLoad | src/mips64/jit_compiler_x64.c:3-42 | likewise for the loads |
| JitEmitter.JitParsing.EmitStore | src/mips64/jit_compiler_x64.c:17-55 | likewise for the stores, with offset and source as they reach the macro |
| JitEmitter.JitParsing.EmitJump | src/mips64/jit_compiler_x64.c:290-296 | likewise for JUMP, recording a displacement unless the target is -1 |
| JitEmitter.JitParsing.EmitBranch | src/mips64/jit_compiler_x64.c:298-315 | likewise for BRANCH; equal registers delegate to JUMP and still make one entry |
| JitEmitter.JitParsing.EmitNBranch | src/mips64/jit_compiler_x64.c:317-329 | likewise for NBRANCH |
| JitEmitter.JitParsing.EmitCall | src/mips64/jit_compiler_x64.c:331-337 | likewise for CALL |
| JitEmitter.JitParsing.EmitCallEx | src/mips64/jit_compiler_x64.c:339-342 | likewise for CALLEX |
| JitEmitter.JitParsing.EmitReturn | src/mips64/jit_compiler_x64.c:344-347 | likewise for RETURN |
| JitEmitter.JitParsing.EmitStoreF | src/mips64/jit_compiler_x64.c:363-375 | likewise for STOREF |
| JitEmitter.JitParsing.EmitIntToF | src/mips64/jit_compiler_x64.c:377-381 | likewise for ITOF |
| JitEmitter.JitParsing.EmitFToInt | src/mips64/jit_compiler_x64.c:383-386 | likewise for FTOI |
| JitEmitter.JitParsing.EmitArithF | src/mips64/jit_compiler_x64.c:388-430 | likewise for ADDF, SUBF, MULF, DIVF, MINF and MAXF |
| JitEmitter.JitParsing.EmitLessF | src/mips64/jit_compiler_x64.c:412-418 | likewise for LESSF |
| JitEmitter.JitParsing.EmitLoadF4 | src/mips64/jit_compiler_x64.c:432-444 | likewise for LOADF4 |
| JitEmitter.JitParsing.EmitStoreF4 | src/mips64/jit_compiler_x64.c:446-458 | likewise for STOREF4 |
| JitEmitter.JitParsing.EmitArithF4 | src/mips64/jit_compiler_x64.c:460-495 | likewise for the packed arithmetic |
| GuestMemory.BoundCheckExact | src/mips64/memory.c:8-16 | the wrapping check equals size > 0 and address + size <= 64 MiB in unbounded integers |
| GuestMemory.AlignmentCheckExact | src/mips64/memory.c:19-38 | the masks accept exactly sizes 1, 2, 4, 8 at multiples of the size |
| GuestMemory.CheckOk | src/mips64/memory.c:66-90 | an access is accepted exactly when its width is legal, it is aligned and it lies inside memory |
| GuestMemory.ReadAfterRun | src/mips64/memory.c:66-254 | after any sequence of reads and writes of mixed widths and byte orders, an accepted read gives the value assembled from the latest accepted write to each byte, and a rejected one its status |
| GuestMemory.RunIsLatest | src/mips64/memory.c:164-254 | each byte holds what the latest accepted covering write put there; rejected operations change nothing |
| GuestMemory.DisjointOrNested | src/mips64/memory.c:19-38 | two accepted accesses are disjoint or one lies inside the other |
| GuestMemory.DisjointReadUnchanged | src/mips64/memory.c:66-254 | a write leaves every disjoint accepted read as it was |
| GuestMemory.NarrowRead | src/mips64/memory.c:79-254 | after an accepted write, every aligned narrower read inside it is accepted and returns the part of the value the byte order dictates |
| GuestMemory.PartsJoin | src/mips64/memory.c:66-161 | every accepted read is what the reads of any narrower width over its bytes join to, taken in the byte order |
| GuestMemory.PartsRecombine | src/mips64/memory.c:66-254 | after an accepted write, the reads of any narrower width recombine to exactly the value written |
| GuestMemory.OtherOrderAccess | src/mips64/memory.c:92-98 | reading or writing in the other byte order is reading or writing with the bytes of the access reversed |
| GuestMemory.ReadBack | src/mips64/memory.c:66-254 | an accepted write is read back in full |
| GuestMemory.Memory.Init | src/mips64/memory.c:40-50 | clears all bytes and sets the byte order |
| GuestMemory.Memory.Reset | src/mips64/memory.c:52-63 | clears all bytes; the byte order survives if and only if it was little endian |
| GuestMemory.Memory.Read8 | src/mips64/memory.c:66-77 | status and value of a one-byte read of the flat bytes |
| GuestMemory.Memory.Read16 | src/mips64/memory.c:79-102 | two bytes in the object's order, bounds before alignment |
| GuestMemory.Memory.Read32 | src/mips64/memory.c:104-131 | four bytes in the object's order |
| GuestMemory.Memory.Read64 | src/mips64/memory.c:133-161 | eight bytes in the object's order, by either OR loop |
| GuestMemory.Memory.OrUpward | src/mips64/memory.c:149-151 | the upward loop gives the little-endian value |
| GuestMemory.Memory.OrDownward | src/mips64/memory.c:153-155 | the downward loop gives the big-endian value |
| GuestMemory.Memory.WriteExtendsRun | src/mips64/memory.c:164-254 | if the object holds the memory of a run of accesses, after a write it holds that of the longer run |
| GuestMemory.Memory.ReadInRun | src/mips64/memory.c:66-161 | a read of the object after a run gives the latest byte at each address, or its status |
| GuestMemory.Memory.Write8 | src/mips64/memory.c:164-175 | status and new contents of a one-byte write |
| GuestMemory.Memory.Write16 | src/mips64/memory.c:177-199 | likewise for two bytes |
| GuestMemory.Memory.Write32 | src/mips64/memory.c:201-228 | likewise for four bytes |
| GuestMemory.Memory.Write64 | src/mips64/memory.c:230-254 | likewise for eight bytes, by either loop |
| ByteOrder.ReadersAgree | src/mips64/elf_loader.c:115-132 | the Horner-style reader and the positional-OR reader give the same 64-bit value on the same bytes and byte order |
| ByteOrder.OtherOrderIsReversed | src/mips64/memory.c:147-156 | each big-endian loop gives on eight bytes what the little-endian loop gives on the reversed bytes, for the positional loops and the Horner loops |
| ByteOrder.AssembleDisassemble | src/mips64/memory.c:230-254 | splitting a value into bytes and reading it back is the identity, in either order |
| ByteOrder.DisassembleAssemble | src/mips64/memory.c:133-161 | reading bytes and splitting the value again is the identity, in either order |
| ElfLoader.ElfReadU64 | src/mips64/elf_loader.c:115-132 | the shift loop returns the value of the eight bytes in the file's order |
| ElfLoader.NarrowReaders | src/mips64/elf_loader.c:93-113 | the two- and four-byte expressions give the value of their bytes in the file's order |
| ElfLoader.HashStepFolds | src/mips64/elf_loader.c:80-85 | each turn of the loop is (x mod 2^28) xor 16 (x div 2^28) for x = (16 h + c) mod 2^32, and stays below 2^28 |
| ElfLoader.HashRecurrence | src/mips64/elf_loader.c:78-88 | the hash of a name and one more character is that fold of the hash of the name; the empty name hashes to 0 |
| ElfLoader.HashTable | src/mips64/elf_loader.c:73-91 | the loop returns the hash of the bytes before the terminator |
| ElfLoader.HashBound | src/mips64/elf_loader.c:78-88 | the hash is below 2^28 for every name, although the additions wrap |
| ElfLoader.HashIsPolynomial | src/mips64/elf_loader.c:78-88 | the hash is the base-16 polynomial of the bytes if and only if that polynomial is below 2^28 |
| ElfLoader.ShortNames | src/mips64/elf_loader.c:78-88 | names of at most five bytes hash to their polynomial |
| InstructionDecode.DecodeLosesNothing | src/mips64/decode.c:6-11 | the six R-format fields of every word, shifted and ORed together, give the word |
| InstructionDecode.DecodeIsOnto | src/mips64/decode.c:6-11 | every combination of fields in range is decoded from the word it reassembles to, so decoding is a bijection |
| InstructionDecode.ImmediateExact | src/mips64/decode.c:12 | the decoded immediate is the instruction's low halfword if and only if bits 12 to 15 are clear |
| InstructionDecode.Decoded.Decode | src/mips64/decode.c:3-15 | the shifts, casts and masks give each field's bit range, and `offset` is left alone |
| Cpu.RunInvariant | src/mips64/execute.c:10-116 | over any run of decoded steps from gpr[0] = 0 and an aligned counter: gpr[0] stays 0, the counter is the start plus 4 per successful step mod 2^64 and aligned |
| Cpu.StepFrame | src/mips64/execute.c:10-116 | a step changes at most its target register; a trap changes nothing |
| Cpu.RunLow | src/mips64/execute.c:10-116 | over any run the low 32 bits of all registers, the counter and every trap decision depend only on the low 32 bits of the initial registers and the counter |
| Cpu.WordResults | src/mips64/execute.c:43-101 | after any run every register last written by ADD or ADDU holds a sign-extended word |
| Cpu.NopLaw | src/mips64/execute.c:10-17 | NOP moves the counter on by four mod 2^64 and changes nothing else |
| Cpu.DaddiuLaw | src/mips64/execute.c:21-41 | DADDIU writes gpr[rs] plus the immediate read as a signed halfword, mod 2^64 |
| Cpu.DaddiuUndone | src/mips64/execute.c:21-41 | DADDIU by i and then by 2^16 - i on one register gives it back if and only if i is not 2^15 |
| Cpu.DadduLaw | src/mips64/execute.c:103-116 | DADDU writes the sum mod 2^64, and the sum less one operand is the other |
| Cpu.AdduLaw | src/mips64/execute.c:43-62 | ADDU writes the sum of the low words, mod 2^32 and sign-extended |
| Cpu.AddLaw | src/mips64/execute.c:79-101 | ADD stops without a trace if the signed sum of the low words leaves 32 bits and writes it otherwise |
| Cpu.DispatchOfWords | src/mips64/execute.c:64-137 | which instruction words are dispatched, and to which handler, by their bits |
| Cpu.AddIsTrappingAddu | src/mips64/execute.c:43-101 | ADD traps exactly when the signed sum does not fit in 32 bits, otherwise does what ADDU does and writes the exact sum |
| Cpu.Mips64Cpu.Reset | src/mips64/cpu.c:6-16 | all registers 0, the counter at the reset address |
| Cpu.Mips64Cpu.GetGpr | src/mips64/cpu.c:18-35 | reads a register, 0 for register 0, an error for an index above 31 |
| Cpu.Mips64Cpu.SetGpr | src/mips64/cpu.c:37-54 | writes a register other than 0, keeps register 0 at 0, or refuses the index |
| Cpu.Mips64Cpu.SetPc | src/mips64/cpu.c:66-78 | accepts exactly the multiples of four |
| Cpu.Mips64Cpu.ExecuteNop | src/mips64/execute.c:10-17 | the handler's state and status are one `Step` |
| Cpu.Mips64Cpu.ExecuteDaddiu | src/mips64/execute.c:21-41 | likewise for DADDIU, with the immediate sign-extended from 16 bits |
| Cpu.Mips64Cpu.ExecuteAddu | src/mips64/execute.c:43-62 | likewise for ADDU |
| Cpu.Mips64Cpu.ExecuteAdd | src/mips64/execute.c:79-101 | likewise for ADD with its trap |
| Cpu.Mips64Cpu.ExecuteDaddu | src/mips64/execute.c:103-116 | likewise for DADDU |
| Cpu.Mips64Cpu.Execute | src/mips64/execute.c:64-137 | dispatches NOP, DADDU and DADDIU and refuses everything else without change |
| CoreMemory.RangeIsExact | src/mips64/core.c:41-66 | the wrapping range check equals address + size <= memory size in unbounded integers |
| CoreMemory.LastWriterWins | src/mips64/core.c:449-472 | after any sequence of block writes every byte comes from the last accepted block that covers it, or is unchanged |
| CoreMemory.FetchExact | src/mips64/core.c:68-84 | the fetched word is 0 or 1, and so the instruction in memory if and only if that is 0 or 1, because the bytes are joined with a logical OR |
| CoreMemory.FailedLoadExact | src/mips64/core.c:254-275 | a failing load leaves memory as it was if and only if the write was refused, the entry point is aligned or not set, or the block holds what memory held |
| CoreMemory.RefusedImageStays | src/mips64/core.c:254-275 | on every memory some one-byte image with an unaligned entry point is refused and stays in memory |
| CoreMemory.Emulator.Create | src/mips64/core.c:163-222 | the status of the first failing argument check, or an emulator with zeroed memory and the counter at the reset address |
| CoreMemory.Emulator.WriteMemory | src/mips64/core.c:449-472 | status, and the block copied in or nothing changed |
| CoreMemory.Emulator.SetPc | src/mips64/core.c:392-408 | accepts exactly the multiples of four |
| CoreMemory.Emulator.LoadProgram | src/mips64/core.c:240-276 | a refused image changes nothing; an unaligned entry point is reported after the image has been written |

## Left out

- JitExactness.SoundIffCorrect: for DIV it speaks of dividends below 2^63 with bit 31 clear; DivExact says that no other dividend works.
- JitPrograms.ProgramFrame: says nothing about memory for programs with stores; ProgramCorrect gives their whole memory outside the stack slots used as scratch space.
- JitTables.DispsAreTheRelativeCalls: needs fewer than 2^16 calls; DispsExactOverRuns says what holds beyond.
- Floating-point arithmetic itself: operations are uninterpreted, and of the comparison, the conversions and the memory moves only the bytes are modelled. JIT_LOADF does not type-check and is not modelled.
- Control flow between calls beyond basic blocks and calls of straight-line callees: displacements stay operation indices, since the source has no patching pass.
- JitCalls.CallReturns: the callee stores nothing and calls nothing.
- Null-pointer arguments and the statuses they give: objects replace pointers, except for the data of a block write and the configuration of a new emulator.
- Allocation failures of `mips64_create`.
- `mips64_step`, `mips64_run_program`, `mips64_read_memory` and the register accessors of `core.c`: stubs.
- `mips64_load_elf`: the magic test cannot succeed and segment loading is not written.
- HI and LO beyond being cleared by reset and kept by every handler; the `offset` field, which the decoder never sets.
- MIPS instructions the source names but does not implement.
- Diagnostics: printing, status strings, debug dumps, versions, build scripts, and executable memory allocation.

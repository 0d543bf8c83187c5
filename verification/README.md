# A model of the virtual machine, its compiler and its memory

This project models the solana-sbpf virtual machine in Dafny, together with the access tracker and the
sysvar calculation that the gobble tools add to it, and proves properties of the model. Nothing is executed.
`dafny verify dfyconfig.toml` verifies all of it.

| part | modules |
|---|---|
| words and bits | `Words`, `Bits`, `BitLaws`, `Faults` |
| instructions, verifier, interpreter | `Ebpf`, `Opcodes`, `Alu`, `Verifier`, `Metering`, `Interpreter`, `EbpfVm` |
| what instructions do | `InstructionLaws`, `Branches`, `ControlLaws` |
| runs of verified programs | `Safety`, `Frames`, `EndToEnd` |
| metering in compiled code | `JitCode`, `JitCompiler`, `JitText`, `JitBytes`, `JitRefinement`, `JitTheorem` |
| emitted host code | `X86`, `Blinding`, `Pqr`, `PqrTheorem`, `HostCalls`, `JumpPatching` |
| memory | `MemoryRegion`, `RegionList`, `Eytzinger`, `Unaligned`, `Aligned`, `MappingAgreement`, `AccessTracker`, `MemoryMapping` |
| control flow graph | `Graph`, `Tarjan`, `SearchOrder`, `StaticAnalysis`, `TopologicalOrder` |
| assembler, detection of forbidden reads | `Assembler`, `Disassembly`, `Sysvar`, `Detection` |

Code that updates fields and buffers is modelled by classes and methods (`EbpfVm`, `JitCompiler`, `CodeBuffer`,
`UnalignedMemoryMapping`, `MappingCache`, `AlignedMemoryMapping`, `MemoryMapping`, `MemoryAccessTracker`, the
graph search, the verifier and assembler loops); code that computes values by functions.

## How the parts fit together

`Metering` is the interpreter as a step machine: control flow, calls, syscalls and the instruction meter, with
data left open. `Interpreter.MachineOf` fills in the data: registers, memory accesses, arithmetic and calls of
an executable. Memory and syscalls belong to an environment of arbitrary functions, so every result holds for
every environment. What the data operations mean is stated apart from their definitions: opcodes are put together
from class, source and operation (`Opcodes`), results are numbers, quotients and single bits of their operands
(`InstructionLaws`), conditional jumps are the processor's compare instruction and condition codes (`Branches`), and
accesses, jumps and calls go where their operands point (`ControlLaws`). `EbpfVm` runs the same steps in place on
arrays; that its methods verify is itself the proof
that no array access or division of theirs can fail. `JitCode` is the metering part of the emitted code, with the
wrapping arithmetic of the epilogue written out, block by block; `JitTheorem` shows that it ends every run as the
step machine does. `JitCompiler` lays the blocks out in one text, and `JitText` runs that text by positions: jumps go
to recorded positions, return addresses are positions, falling through is the next position. `JumpPatching` is the
text as bytes with patched offsets, and `JitBytes` shows that it encodes the same text. `EndToEnd` joins all of this
with the verifier, for the text that the compile loop produces. `X86` gives the host instructions their
meaning after the Intel 64 instruction set reference, volume 2, for the sequences where registers alias or constants
are hidden.

Premises, stated as preconditions where they are used: the instruction meter is on; budget plus program length
plus two is below 2^63; syscalls never raise what remains, and charging saturates at zero; there is room for at
least one call; the entry point and registered call targets lie inside the program; on the host, the stack has
room for what a sequence pushes; the text an assembler source gives fits into memory (2^63 bytes).

## Where the code does less than one might expect

Each of these is proved with an exact condition.

- Compiled and interpreted runs differ when a call in the last slot returns: the interpreter refuses the return
  address, compiled code runs into the overrun handler. They agree if and only if a run does not return past the
  end (`JitTheorem.Refines`, with the programs of `JitTheorem.TrailingCallDiffers` and, as an executable that the
  verifier accepts, `EndToEnd.TrailingCallTextDiffers`), and programs whose last slot is not an internal call never
  do (`JitTheorem.NeverPastEnd`).
- An access through a gapped region is checked at its first byte only: it agrees with its bytes' own translations
  if and only if it stays in its frame and in the address space (`MemoryRegion.AccessAgreesUnlessCrossing`,
  `MemoryRegion.CrossingIsAccepted`).
- The tracker reports a read of no bytes that points strictly inside a watched range: its log is exact if and only
  if a run makes no such read (`AccessTracker.LogIsExact`, `AccessTracker.EmptyAccessReported`).
- Aligned and unaligned mappings agree on accesses of at least one byte; on an empty one if and only if it is not at
  the base of a slot, or a region starts there, or else no region ends there and no reachable filler is read
  there, or both happen with the same host address (`MappingAgreement.MappingsAgreeExactly`). They differ both ways:
  a filler translates what the other mapping does not find (`MappingAgreement.FillerDiffers`), and a region that fills
  its slot translates an empty access behind its end, where the aligned mapping has no slot
  (`MappingAgreement.FullSlotDiffers`).
- The assembler's first pass counts a negative fill that its second pass does not emit, in a word that wraps: both
  count alike at a statement if and only if the negative counts before it sum to a multiple of 2^64
  (`Assembler.PassesAgreeExactly`, with `Assembler.NegativeFillDiffers` and `Assembler.NegativeFillsCancel`), and at
  every statement if and only if no count is negative (`Assembler.PassesAgreeEverywhere`).
- A filled slot is read back as it was emitted if and only if its value is not negative (`Assembler.FillsDecode`).
- Replacing a region of the unaligned mapping is not checked there: the mapping stays valid if and only if the start
  stays and the end does not pass the next start (`Unaligned.UnalignedMemoryMapping.ReplaceRegion`).

## Model

| member | source | states |
|---|---|---|
| Ebpf.PcInProgram | sbpf/src/ebpf.rs:626-628 | the saturating bounds check accepts exactly the slots of the program |
| Ebpf.InsnRoundTrip | sbpf/src/ebpf.rs:587-598 | an instruction whose fields fit is decoded unchanged from its eight bytes, wherever in a program they stand |
| Ebpf.LddwRoundTrip | sbpf/src/ebpf.rs:687-690 | the two halves of any 64-bit immediate, split with sign, merge to it again |
| Opcodes.DecodeOpcode | sbpf/src/ebpf.rs:58-527 | for every version and supported operation, the byte put together from instruction class, source bit and operation or size bits decodes to that operation |
| Opcodes.OpcodeDecoded | sbpf/src/ebpf.rs:58-527 | every byte that decodes to something is the one put together for that operation, so decoding is its exact inverse |
| Verifier.SlotErrorMeaning | sbpf/src/verifier.rs:104-214 | the checks report no error for a slot exactly if its registers, operands and targets satisfy the declarative rules |
| Verifier.ErrorExplained | sbpf/src/verifier.rs:104-214 | a slot gets an error, with its position and values, exactly if it breaks the rule of that error; registers come last and are reported behind a wide load |
| Verifier.Verify | sbpf/src/verifier.rs:222-421 | the loop accepts exactly the programs in which every slot is a checked instruction or the zero-opcode second half of a wide load; otherwise it reports which length rule is broken, or the error of the rule that the first bad slot breaks |
| Interpreter.VerifiedWellFormed | sbpf/src/verifier.rs:222-421 | a verified program gives a step machine whose jumps, halves of wide loads, call targets and register calls satisfy every premise of the compiler's correctness |
| InstructionLaws.SumLaws | sbpf/src/interpreter.rs:257-335 | additions give the sum of register and signed operand modulo 2^64, or a number with its low half, extended as the version says |
| InstructionLaws.DifferenceLaws | sbpf/src/interpreter.rs:259-341 | so do subtractions with the difference, which version 2 takes the other way round for immediates |
| InstructionLaws.ProductLaws | sbpf/src/interpreter.rs:265-347 | so do multiplications with the product of any numbers the operands stand for |
| InstructionLaws.QuotientLaws | sbpf/src/interpreter.rs:271-394 | quotient times divisor plus remainder is the dividend, the remainder is below the divisor, and a zero divisor is reported or panics |
| InstructionLaws.BitwiseLaws | sbpf/src/interpreter.rs:280-396 | every bit of a bitwise operation is that of its operands' bits, and the upper half of a narrow one is clear |
| InstructionLaws.ShiftLaws | sbpf/src/interpreter.rs:284-372 | shifts move every bit by the count modulo the width, and zeros come in |
| InstructionLaws.ArithmeticShiftLaw | sbpf/src/interpreter.rs:310-400 | the arithmetic shift is the signed number divided by a power of two, rounded down |
| InstructionLaws.MoveLaws | sbpf/src/interpreter.rs:304-398 | moves give the operand, narrow ones its low half, sign-extended from registers in version 2 |
| InstructionLaws.NegationLaws | sbpf/src/interpreter.rs:288-377 | a number and its negation sum to zero modulo 2^64 or 2^32 |
| InstructionLaws.HighOrLaw | sbpf/src/interpreter.rs:401-403 | sets exactly the bits of the immediate in the upper half |
| InstructionLaws.ByteOrderLaws | sbpf/src/interpreter.rs:312-332 | bytes up to 16, 32 or 64 bits are kept or reversed, those above cleared, and other widths refused |
| Branches.UnsignedLaws | sbpf/src/interpreter.rs:480-526 | greater is less turned around, not-greater and not-less are negations, at-least is greater or equal, and equality compares exactly the bits in question |
| Branches.OrderLaws | sbpf/src/interpreter.rs:480-526 | less is a strict, transitive order in which every number but the greatest is below its successor |
| Branches.SignedLaws | sbpf/src/interpreter.rs:480-526 | the four signed conditions are the unsigned ones after adding half the range to both operands |
| Branches.NarrowLaws | sbpf/src/interpreter.rs:480-501 | 32-bit conditions depend on the low halves only |
| Branches.BitTestLaw | sbpf/src/interpreter.rs:511-512 | the bit test holds if and only if some bit is set in both operands |
| Branches.BranchRefinesInterpreter | sbpf/src/jit.rs:1240-1269 | for every condition, width and operands, the compare or test instruction and the condition code that the compiler emits jump, by the processor's flags, exactly when the interpreter does |
| ControlLaws.AddressLaws | sbpf/src/interpreter.rs:203-256 | an access is at base plus offset where that is an address, and moving there and back ends at the base |
| ControlLaws.CutLaws | sbpf/src/interpreter.rs:221-256 | a stored value keeps exactly the bits of its size |
| ControlLaws.LoadLaw | sbpf/src/interpreter.rs:203-220 | a load gives its destination what the environment holds at source plus offset, changes no other register, and fails with the environment |
| ControlLaws.StoreLaw | sbpf/src/interpreter.rs:221-256 | a store hands the cut operand to the environment at destination plus offset and changes no register |
| ControlLaws.StoreThenLoad | sbpf/src/interpreter.rs:203-256 | in a memory that remembers, a load of the same size from the same address reads the operand's low bytes |
| ControlLaws.JumpLaw | sbpf/src/interpreter.rs:504-526 | a jump whose offset is the distance from the next slot to `t` goes to `t` |
| ControlLaws.TakenLaw | sbpf/src/interpreter.rs:480-526 | a conditional jump of a program is taken exactly when the processor's flags say so |
| ControlLaws.CalleeLaw | sbpf/src/interpreter.rs:528-541 | a register holding the address of slot `k` calls slot `k`; the version says which register |
| ControlLaws.StaticCallLaw | sbpf/src/interpreter.rs:542-577 | from version 3, source 1 calls the slot that the immediate is the distance to, source 0 the syscall of that key, and nothing calls both |
| ControlLaws.KeyedCallLaw | sbpf/src/interpreter.rs:542-577 | before, the immediate is looked up in both registries |
| ControlLaws.WideLoadLaw | sbpf/src/interpreter.rs:195-201 | a wide load whose slots hold the halves of a number loads that number |
| Safety.ComputePanics | sbpf/src/interpreter.rs:257-477 | no arithmetic instruction panics unless it divides by an immediate zero: all other divisions by zero and the overflowing signed ones are reported first |
| Safety.VerifiedInsnSafe | sbpf/src/interpreter.rs:175-600 | at every slot of a verified program, with any registers and memory, register numbers, program bytes, divisors and jump targets are in range |
| Safety.StepInside | sbpf/src/interpreter.rs:175-600 | a step keeps the pc at most at the program's length and the depth below its limit |
| Safety.NeverPanics | sbpf/src/interpreter.rs:175-600 | after any number of steps of any run of a verified program, the next step cannot make the host panic, the pc is at most the program's length and the depth is below its limit |
| Frames.StepHasShape | sbpf/src/interpreter.rs:128-156 | every step keeps the open calls and the frame pointer (up to aligned bumps where allowed), or pushes the caller's registers and return address, or pops and restores exactly these |
| Frames.ReturnRestores | sbpf/src/interpreter.rs:578-594 | the first step after which fewer frames are open restores the registers and return pc of the frame it closes, whatever happened above it |
| Frames.ExitRestores | sbpf/src/interpreter.rs:578-594 | when the call made by a step returns, registers 6 to 10 are as before the call, execution goes on behind it, and the open calls are those of then |
| Frames.FramePointers | sbpf/src/interpreter.rs:141-153 | in every state of every run of a verified program the frame pointer and every saved one are base plus depth times stride (fixed frames) or congruent to the base modulo 64 (versions 1 and 2) |
| Frames.FrameOnHost | sbpf/src/vm.rs:325-330 | the bytes below the frame pointer at depth d translate to host frame number d, with or without gaps |
| Frames.FramesAreDisjoint | sbpf/src/vm.rs:325-330 | frames of different depths share no host byte |
| Frames.RunFramesDisjoint | sbpf/src/vm.rs:316-355 | from the first frame pointer on, the frames of any two states of one run at different depths share no host byte |
| EbpfVm.EbpfVm.constructor | sbpf/src/vm.rs:316-355 | all registers a run starts from are zero but the frame pointer, which is one frame (or the stack) above the start of the stack; there is one call frame per allowed call |
| EbpfVm.EbpfVm.PushFrame | sbpf/src/interpreter.rs:128-156 | saves registers 6 to 10 and the return pc in the next call frame and bumps the frame pointer, or throws at the depth limit |
| EbpfVm.EbpfVm.ExecuteStraight | sbpf/src/interpreter.rs:202-477 | loads, stores and arithmetic on the register array have the effect of the value semantics and never panic |
| EbpfVm.EbpfVm.InvokeFunction | sbpf/src/program.rs:363-372 | the builtin charges exactly what is due before it runs, takes its arguments from the machine's own registers, and reads the meter again |
| EbpfVm.EbpfVm.DispatchSyscall | sbpf/src/interpreter.rs:602-608 | hands over what is due and, in the machine's own registers, registers 0 to 5; takes the meter back with nothing due |
| EbpfVm.EbpfVm.CallThroughRegister | sbpf/src/interpreter.rs:528-540 | a register call reads its target before the frame is pushed and checks it afterwards |
| EbpfVm.EbpfVm.CallImmediate | sbpf/src/interpreter.rs:542-577 | a syscall, an internal call, both or neither, by version and registries |
| EbpfVm.EbpfVm.Return | sbpf/src/interpreter.rs:578-594 | ends the program at depth zero, otherwise restores the caller and checks the return pc |
| EbpfVm.EbpfVm.Step | sbpf/src/interpreter.rs:175-600 | for a verified program one call follows the step machine in every field, error, error pc and meter value; what its data operations, conditions, addresses and targets are is pinned by the laws above |
| EbpfVm.EbpfVm.ExecuteProgram | sbpf/src/vm.rs:360-418 | from the machine's registers and the calls an earlier run left open, the loop ends with the result of the step machine's run; the reported count and the context's remaining budget are instructions executed plus what syscalls consumed; of the machine's own registers 0 to 5 become those of the last syscall, if there was one, 11 the reported pc or else the entry, and the others are kept |
| Metering.StepSpends | sbpf/src/interpreter.rs:178-181 | every step that goes on uses up budget and keeps the meter consistent |
| Metering.RunIsBounded | sbpf/src/interpreter.rs:178-181 | every run ends within the remaining budget plus one steps |
| Metering.RunAccounts | sbpf/src/program.rs:363-372 | through every handover of the meter, what is left after a run is the budget minus instructions executed minus what syscalls consumed |
| Metering.ReportedCount | sbpf/src/vm.rs:409-414 | the count that is reported is exactly that cost |
| Metering.SyscallsPaid | sbpf/src/interpreter.rs:602-608 | every syscall of a run sees less budget than those before it and less than the initial one, so each was paid for before it started |
| JitCompiler.JitCompiler.EmitCheckpoint | sbpf/src/jit.rs:435-438 | a validation is emitted exactly if the last one is a checkpoint distance back |
| JitCompiler.JitCompiler.EmitInternalCall | sbpf/src/jit.rs:1132-1171 | emits the prologue call, the profiling for a known target, the call, the undo and the restore, and counts as a checkpoint |
| JitCompiler.JitCompiler.CompileSlot | sbpf/src/jit.rs:428-447 | one turn of the loop appends the block of its slot, records its place and moves over the second half of a wide load |
| JitCompiler.JitCompiler.Compile | sbpf/src/jit.rs:417-885 | after the loop every slot's block stands where its section says, falling out of a block leads to the next slot, and out of the last one to the overrun handler |
| JitRefinement.EpilogueDue | sbpf/src/jit.rs:1427-1435 | the four wrapping steps of the epilogue give the number of due instructions |
| JitRefinement.SimCall | sbpf/src/jit.rs:809-840 | the code of an immediate call, with budget left, does what the interpreter's step does: syscall, internal call, both or neither |
| JitRefinement.SimCallReg | sbpf/src/jit.rs:1571-1609 | so does a register call, with the meter moved to the target taken from the stack |
| JitRefinement.SimReturn | sbpf/src/jit.rs:851-865 | leaving a function runs the exit code and the code behind the call, and restores meter, frame and depth |
| JitTheorem.Drain | sbpf/src/jit.rs:996-1008 | with the budget spent, compiled code runs at most a checkpoint distance of straight-line instructions, no syscall, and then reports exhaustion at the interpreter's pc |
| JitTheorem.Refines | sbpf/src/jit.rs:996-1026 | from every related pair of states compiled code ends, makes the interpreter's syscalls, and ends like the interpreter (kind, pc, meter, due count) if and only if the run does not return past the end |
| JitTheorem.FuelIsEnough | sbpf/src/jit.rs:292-339 | a run of compiled code has one outcome, however long it is allowed to take |
| JitTheorem.JitRefinesInterpreter | sbpf/src/jit.rs:292-339 | from any entry point and budget the two report the same result, error pc and instruction count, with budget plus one due instead of budget on exhaustion, under the same condition |
| JitTheorem.JitSyscallsPaid | sbpf/src/jit.rs:815-818 | compiled code enters no syscall with the budget spent, and runs at most a checkpoint distance of instructions more than the interpreter |
| JitTheorem.NeverPastEnd | sbpf/src/interpreter.rs:578-594 | a program whose last slot is not an internal call never returns past its end |
| EndToEnd.TrailingCallTextDiffers | sbpf/src/jit.rs:873-880 | a concrete executable that the verifier accepts, whose interpretation reports a call outside the text segment while its compiled text ends otherwise, for every budget of at least two |
| JitTheorem.TrailingCallDiffers | sbpf/src/jit.rs:873-880 | for a program that ends in a call to a function that exits, the interpreter reports a call outside the text segment and compiled code does not |
| EndToEnd.VerifiedPaired | sbpf/src/verifier.rs:130-140 | the slots of a verified program satisfy the premise of the compile loop |
| JitText.TextRunsBlocks | sbpf/src/jit.rs:417-885 | running the compiled text position by position, with recorded positions for jumps and positions as return addresses, gives the outcome of running the blocks of slots |
| JitText.TextFuelIsEnough | sbpf/src/jit.rs:292-339 | a run of the text has one outcome, however long it is allowed to take |
| EndToEnd.VerifiedJit | sbpf/src/jit.rs:292-339 | for every verified program, entry, budget and environment, the compiled text run from the entry's position ends like the interpreter and reports its instruction count, under the exact condition and its static sufficient one |
| EndToEnd.CompileVerified | sbpf/src/jit.rs:417-885 | the text and positions that the compile loop produces for a verified program have this property for all entries, budgets and data |
| JitBytes.TextEncoded | sbpf/src/jit.rs:1685-1708 | whatever bytes operations are made of, every operation of the text has its bytes in the patched buffer at the place of its position, and the offset of a jump or call leads to the bytes of the position that running the text goes to |
| EndToEnd.CompileToBytes | sbpf/src/jit.rs:417-885 | compiling a verified program into a buffer gives a text that runs like the interpreter and bytes that encode this text in that sense, up to the end of the overrun handler |
| Blinding.LoadImmediateLoads | sbpf/src/x86.rs:584-612 | all three encodings load exactly the constant |
| Blinding.KeysBehind | sbpf/src/jit.rs:942-962 | the first immediate of a blinded load is `m` exactly under the keys whose part is the blinded number less `m` |
| Blinding.AnyImmediate | sbpf/src/jit.rs:942-962 | a constant blinded by the whole key can show any first immediate, under one key each; one blinded by half a key shows exactly those within reach of the half |
| Blinding.SanitizedLoadIsExact | sbpf/src/jit.rs:942-962 | for every key and constant, all four branches of the blinded load give the constant modulo 2^64 and touch nothing but scratch and flags |
| Blinding.SanitizedAluIsExact | sbpf/src/jit.rs:964-974 | all three forms of an operation with a constant give its result and touch nothing but scratch and flags |
| Blinding.StoreSiteRuns | sbpf/src/jit.rs:1173-1215 | the call site leaves the blinded value 96 bytes below the stack, the address in scratch, the pc in the slot above the return address's place |
| Blinding.StoreRoutineRuns | sbpf/src/jit.rs:1637-1655 | the subroutine adds the key in that same slot, its nine pushes do not reach the slot, and it loads the value from there |
| Blinding.SplitStoreIsExact | sbpf/src/jit.rs:1181-1187 | so for every key the callee gets exactly the stored constant, the address, and the pc and return address on the stack |
| Pqr.MulDivComputes | sbpf/src/jit.rs:1359-1367 | on extended operands the instruction cannot fault after the checks and gives the product half, quotient or remainder |
| Pqr.CoreRuns | sbpf/src/jit.rs:1352-1380 | saving, moving and restoring rax and rdx leaves the result in the destination and every other register and the stack as before, for every destination |
| Pqr.MinusOneCheckRuns | sbpf/src/jit.rs:1326-1334 | the two conditional moves and the test set the flag exactly if it was set and the divisor is minus one |
| Pqr.ChecksRun | sbpf/src/jit.rs:1313-1340 | the checks leave for the right handler with the pc in scratch exactly on a zero divisor or the one signed overflow |
| Pqr.EmitDelivers | sbpf/src/jit.rs:1296-1386 | every emitted sequence delivers the result of its operation or its error for all operands and all source and destination registers, and keeps everything else |
| PqrTheorem.PqrReference | sbpf/src/interpreter.rs:406-477 | the seven operations, 32 and 64 bits wide, mean what the interpreter computes |
| PqrTheorem.PqrRefinesInterpreter | sbpf/src/jit.rs:727-755 | the compiled instruction leaves all eleven guest registers as the interpreter does, or raises its error, and keeps the stack |
| PqrTheorem.DivisionRefinesInterpreter | sbpf/src/jit.rs:659-683 | the same for divisions and remainders before version 2 |
| HostCalls.PrologueEnters | sbpf/src/jit.rs:1540-1569 | the prologue leaves at once with the meter spent, leaves with the call counted at the depth limit, and otherwise returns to its caller with five registers saved in place below the stack pointer and the registers of the interpreter's new frame |
| HostCalls.PrologueRefines | sbpf/src/jit.rs:1540-1569 | so it does what the metering model's prologue does: the same error, or the same guest registers and depth |
| HostCalls.RestoreRuns | sbpf/src/jit.rs:1166-1171 | the pops behind a call restore the five registers and the stack pointer |
| HostCalls.CallRestores | sbpf/src/jit.rs:1132-1171 | whatever a callee does that returns with its stack pointer, the stack above it intact and the call counted back, the caller's registers end as the interpreter restores them |
| JumpPatching.CodeBuffer.RelativeToTargetPc | sbpf/src/jit.rs:1685-1697 | a target with a place gives the distance from the end of the instruction, one without is listed with the location of its offset bytes |
| JumpPatching.CodeBuffer.EmitJump | sbpf/src/jit.rs:1685-1697 | a jump or call of any opcode length is right at once or listed, and no earlier jump is disturbed |
| JumpPatching.CodeBuffer.ResolveJumps | sbpf/src/jit.rs:1699-1708 | afterwards every jump decodes to the place of its target, and only offset bytes of jumps have changed |
| JumpPatching.CodeBuffer.Compile | sbpf/src/jit.rs:417-885 | for slots of any code and any no-ops in between, and the piece behind the last slot, every slot has a place, the jumps are those of the program in order and end where their items end, each decodes to the place recorded for its target, and all other bytes of the code and of the subroutines are as emitted |
| MemoryRegion.GappedTranslation | sbpf/src/memory_region.rs:208-245 | mask and shift succeed exactly for allowed, in-bounds offsets into even frames, and move frame 2f to frame f |
| MemoryRegion.ContinuousTranslation | sbpf/src/memory_region.rs:208-245 | without gaps translation succeeds exactly for allowed accesses that lie in the region as a whole, and keeps the distance from its start |
| MemoryRegion.ContinuousBytes | sbpf/src/memory_region.rs:208-245 | every byte of such an access translates to its own byte of the host range |
| MemoryRegion.HostByteHasOneGuest | sbpf/src/memory_region.rs:199-245 | every host byte of a gapped region is the translation of exactly one guest address, provided that address exists, and the region covers it unless it is the last address of all |
| MemoryRegion.TranslationInSlice | sbpf/src/memory_region.rs:208-245 | a successful translation stays inside the host slice |
| MemoryRegion.AccessAgreesUnlessCrossing | sbpf/src/memory_region.rs:208-245 | a translated access agrees with the translation of each of its bytes if and only if it does not leave its frame or the address space |
| MemoryRegion.CrossingIsAccepted | sbpf/src/memory_region.rs:208-245 | an access that leaves its frame is accepted although its last byte is in a gap |
| Unaligned.MappingCache.Find | sbpf/src/memory_region.rs:800-812 | returns the first hit in ring order from the head, or nothing |
| Unaligned.MappingCache.Insert | sbpf/src/memory_region.rs:815-820 | the new entry comes first and the oldest is dropped |
| Unaligned.UnalignedMemoryMapping.ConstructEytzingerOrder | sbpf/src/memory_region.rs:359-371 | fills the subtree of an index with the sorted regions at its in-order positions and leaves the rest alone |
| Unaligned.UnalignedMemoryMapping.New | sbpf/src/memory_region.rs:374-409 | fails exactly if sorted regions overlap, naming the first that does; otherwise index, starts and cache agree with them |
| Unaligned.UnalignedMemoryMapping.Search | sbpf/src/memory_region.rs:426-442 | the descent ends at the last sorted region that starts at or before the address, or nowhere |
| Unaligned.UnalignedMemoryMapping.FindRegion | sbpf/src/memory_region.rs:414-447 | with any cache contents the result is the one of a linear scan, and the cache stays coherent |
| Unaligned.UnalignedMemoryMapping.ReplaceRegion | sbpf/src/memory_region.rs:451-455 | installs any region and empties the cache; the mapping stays valid if and only if the start stays and the end does not pass the next start |
| RegionList.FindLastUnique | sbpf/src/memory_region.rs:414-447 | the region found is the only one that starts at or before the address with no later one doing so |
| Aligned.FillGaps | sbpf/src/memory_region.rs:481-503 | the inserting loop ends and puts region i into slot i, fillers in between |
| Aligned.New | sbpf/src/memory_region.rs:475-529 | succeeds exactly for lists whose regions fall into increasing slots; the result is the given regions and fillers, region i in slot i |
| Aligned.FindSlot | sbpf/src/memory_region.rs:533-542 | the index found is inside the list and the address lies in its 4 GiB slot; none is found exactly above the list or in a slot zero that is not allowed |
| Aligned.AlignedMemoryMapping.ReplaceRegion | sbpf/src/memory_region.rs:546-561 | installs exactly the regions that begin and end in the slot, and refuses all others at any index |
| MappingAgreement.UnalignedAccepts | sbpf/src/memory_region.rs:384-392 | if every region ends inside its slot, the unaligned constructor accepts the aligned list |
| MappingAgreement.MappingsAgree | sbpf/src/memory_region.rs:627-648 | then both mappings translate every access of at least one byte to the same address or not at all |
| MappingAgreement.EmptyAgreesExactly | sbpf/src/memory_region.rs:627-648 | on an access of no bytes they agree if and only if the given regions' starts and ends at that address say so |
| MappingAgreement.MappingsAgreeExactly | sbpf/src/memory_region.rs:627-648 | together: agreement on every access, exactly under that condition for empty ones |
| MappingAgreement.FillerDiffers | sbpf/src/memory_region.rs:481-503 | an empty read at a filler is translated by the aligned mapping only |
| MappingAgreement.FullSlotDiffers | sbpf/src/memory_region.rs:208-245 | an empty access behind a region that fills its slot is translated by the unaligned mapping only |
| AccessTracker.OverlapIsSharing | sbpf/src/memory_region.rs:96-111 | for accesses of at least one byte the comparison with a saturating end means sharing a byte |
| AccessTracker.TrackingExact | sbpf/src/memory_region.rs:96-111 | the comparison is exact for an access and a range if and only if the access is not an empty one strictly inside |
| AccessTracker.LogIsExact | sbpf/src/memory_region.rs:96-111 | the log of a run is its accesses that share a byte with a watched range, in order, if and only if the run makes no such empty access |
| AccessTracker.MemoryAccessTracker.AddWatchedRanges | sbpf/src/memory_region.rs:82-92 | watches the ranges that are not empty, in order |
| AccessTracker.MemoryAccessTracker.CheckAccess | sbpf/src/memory_region.rs:96-111 | records the access once if any watched range overlaps it |
| MemoryMapping.MemoryMapping.ReplaceRegion | sbpf/src/memory_region.rs:748-764 | installs a region if and only if it keeps the start, ends before the next start and, in an aligned mapping, inside its slot; otherwise nothing changes |
| MemoryMapping.MemoryMapping.MapWithAccessViolationHandler | sbpf/src/memory_region.rs:655-690 | for any handler starts, order, disjointness, index and cache stay valid; a failed attempt changes no region, a successful one is what the regions now translate; the handler is asked exactly once about the region found, with its room, and not at all when the regions already translate or none is found; its answer decides the result |
| MemoryMapping.MemoryMapping.RoomIsExact | sbpf/src/memory_region.rs:655-690 | the length the handler is offered is exact: a continuous region with the same start fits an unaligned mapping if and only if it is not longer, or nothing can come behind it |
| MemoryMapping.MemoryMapping.Map | sbpf/src/memory_region.rs:627-648 | gives what the region found translates, or the violation, without the handler, and logs every attempted read |
| MemoryMapping.ViolationNames | sbpf/src/memory_region.rs:300-334 | outside stack frames the reported error names the program, stack, heap or input area exactly for addresses in that area |
| MemoryMapping.ViolationFrames | sbpf/src/memory_region.rs:300-334 | with frames of fixed size an access is reported with frame number `f` exactly if it lies in frame `f`, where 0 includes the frame below the stack and -1 is the one below that, up to the depth limit |
| MemoryMapping.MemoryMapping.LoadFrom | sbpf/src/memory_region.rs:693-710 | an access that the regions translate gives that address, asks nothing and changes nothing; otherwise the handler is asked once about the region found and its answer decides result and installed region; without a region it is a violation; the attempt is logged in every case |
| MemoryMapping.MemoryMapping.StoreTo | sbpf/src/memory_region.rs:714-724 | the same for stores, which are not logged |
| MemoryMapping.MemoryMapping.AccessTwice | sbpf/src/memory_region.rs:655-690 | repeating a successful access gives the same address, changes no region and does not ask the handler again |
| MemoryMapping.MemoryMapping.Replay | sbpf/src/memory_region.rs:627-764 | over any sequence of maps, loads, stores and replacements the mapping stays valid, each operation returns what the regions and the answers up to it make of it, and the log grows by exactly the recorded attempted reads, in order |
| Tarjan.DiscoverInv | sbpf/src/static_analysis.rs:769-788 | discovering a node keeps the invariant of the search: nodes, both stacks, reachability, lowlinks and finished components |
| Tarjan.ScanInv | sbpf/src/static_analysis.rs:789-791 | examining an edge to a known node keeps it |
| Tarjan.RetreatInv | sbpf/src/static_analysis.rs:807-808 | leaving a node that is not the root of its component keeps it |
| Tarjan.CloseInv | sbpf/src/static_analysis.rs:793-806 | popping a component at its root keeps it, with discovery numbers reused as positions |
| StaticAnalysis.PopComponent | sbpf/src/static_analysis.rs:793-806 | pops the stack down to the root and numbers the popped nodes in popping order |
| SearchOrder.TimedDiscover | sbpf/src/static_analysis.rs:763-779 | every discovered node started a search after all smaller ones or was found over an edge from a node found before it, and no two at the same time |
| SearchOrder.TimedClose | sbpf/src/static_analysis.rs:793-806 | in a closed component the greater position belongs to the node discovered earlier |
| StaticAnalysis.FindComponents | sbpf/src/static_analysis.rs:737-829 | two nodes get the same id exactly if they reach each other, edges never lead to a later id, positions in a component are distinct and follow the order of discovery |
| TopologicalOrder.SortNodes | sbpf/src/static_analysis.rs:830-836 | the order is sorted by descending index and lists every node once |
| TopologicalOrder.EdgesGoForward | sbpf/src/static_analysis.rs:830-836 | an edge between different components goes forward |
| TopologicalOrder.ComponentsContiguous | sbpf/src/static_analysis.rs:830-836 | no component is interrupted by another |
| TopologicalOrder.ReachForward | sbpf/src/static_analysis.rs:830-836 | along any path the order goes forward or stays in a component |
| TopologicalOrder.SuperRoot | sbpf/src/static_analysis.rs:837-862 | the virtual root leads to the first node in the order of every component that is not entered from another, and to nothing else |
| TopologicalOrder.FirstIsFound | sbpf/src/static_analysis.rs:833-862 | the first node of a component in the order is the one the search discovered first |
| TopologicalOrder.FoundIsLowest | sbpf/src/static_analysis.rs:747-862 | in a component that is not entered that node has the lowest address |
| TopologicalOrder.InsertRoot | sbpf/src/static_analysis.rs:863-872 | adds the root's edges and makes it a source of exactly its destinations |
| TopologicalOrder.RootsReachAll | sbpf/src/static_analysis.rs:837-872 | every node is reachable from a destination of the virtual root |
| TopologicalOrder.NameFunctions | sbpf/src/static_analysis.rs:863-871 | every destination of the root gets a function entry, entries that are there stay |
| TopologicalOrder.ControlFlowGraphTarjan | sbpf/src/static_analysis.rs:737-873 | all of this for the whole analysis of any graph; the virtual root leads to the lowest addresses of the components that are not entered, becomes a node that reaches every node, sources still mirror destinations, and exactly its destinations get function entries |
| Assembler.MakeInsn | sbpf/src/assembler.rs:252-273 | an instruction is built exactly if its fields fit their places, and has the given opcode and fields |
| Assembler.Assemble | sbpf/src/assembler.rs:331-511 | the two loops give the code of the statements with the labels of the whole source and the registry of all functions; they fail exactly if registered addresses collide, which is reported first, or a statement cannot be encoded |
| Assembler.RegistryExact | sbpf/src/program.rs:122-139 | registering fails exactly if two different addresses have the same low half; otherwise the registry holds exactly the registered ones |
| Disassembly.RegistryMeaning | sbpf/src/assembler.rs:334-438 | the registry of a source holds exactly the addresses of its function labels and the targets of its calls by number, each under its low half |
| Disassembly.CallsAreRegistered | sbpf/src/assembler.rs:421-438 | before version 3 the immediate of an assembled call by number, as decoded from the text, is the key of its target |
| Assembler.PassesAgree | sbpf/src/assembler.rs:335-507 | without negative fills the slot of every statement in the second pass is the address the first pass counted |
| Assembler.PassesAgreeExactly | sbpf/src/assembler.rs:345-381 | what the first pass counts is what the second emits plus the negative counts, modulo 2^64, so they agree at a statement if and only if these sum to a multiple of 2^64 |
| Assembler.PassesAgreeEverywhere | sbpf/src/assembler.rs:345-381 | they agree at every statement if and only if no fill count is negative |
| Assembler.NegativeFillsCancel | sbpf/src/assembler.rs:345-381 | two fills of -2^63: the passes differ between them and agree behind them |
| Assembler.LabelMeaning | sbpf/src/assembler.rs:334-344 | a label's address is the slot of its last definition; only the entry point has one by default |
| Assembler.JumpsReachLabels | sbpf/src/assembler.rs:275-284 | for every jump to a label, slot plus one plus offset is the slot of the label's last definition |
| Assembler.CallsReachLabels | sbpf/src/assembler.rs:439-449 | calls to labels name that slot, relative where syscalls are static and absolute otherwise |
| Assembler.InstructionsDecode | sbpf/src/assembler.rs:508-511 | every instruction of an instruction statement decodes from the text bytes to itself |
| Assembler.FillsDecode | sbpf/src/assembler.rs:366-381 | a filled slot decodes to its value's fields with the upper half as a signed immediate, and to itself if and only if the value is not negative |
| Assembler.LddwDecodes | sbpf/src/assembler.rs:484-501 | the halves of a wide load are read back from the text bytes as the immediate of the source |
| Disassembly.EncodesExactly | sbpf/src/assembler.rs:385-487 | for all thirteen types of instructions an instruction is what a statement is encoded to if and only if it has the statement's opcode and source bit, prints the statement's operands with labels resolved, and is zero elsewhere; a statement is refused exactly if no instruction prints it |
| Disassembly.StatementsDecode | sbpf/src/assembler.rs:358-511 | so every instruction statement can be read off the text bytes at its address, wide loads from two slots; the frame pointer adjustment that older versions drop reads as a no-op |
| Disassembly.FillsAreBytes | sbpf/src/assembler.rs:366-381 | every slot of a fill directive holds the eight bytes of its value, lowest first |
| Disassembly.AssembleText | sbpf/src/assembler.rs:321-515 | assembling a source to text gives bytes with these properties |
| Sysvar.CalculateForbiddenSysvarOffsets | gobble-lib/src/lib.rs:101-154 | fails exactly for a missing instruction or at the first range beyond its data; otherwise moves every range to the data's offset |
| Sysvar.DataAtOffset | gobble-lib/src/lib.rs:81-136 | that offset is where the data stands in the serialized layout |
| Sysvar.OffsetsSelectForbidden | gobble-lib/src/lib.rs:138-153 | an accepted range selects exactly the forbidden bytes of the chosen instruction |
| Sysvar.WatchingForbiddenBytes | gobble-lib/src/lib.rs:162-175 | an access shares a byte with the watched ranges if and only if it reads a forbidden byte of the serialized instruction, and points strictly inside one exactly if it points strictly inside a forbidden range |
| Sysvar.DetectionIsExact | gobble-lib/src/lib.rs:162-175 | the log of any run of accesses is the list of those that read a forbidden byte of the serialized instruction, in order, if and only if no empty access points strictly inside a forbidden range |
| Detection.Detect | gobble-lib/src/lib.rs:156-175 | end to end: calculating and watching the ranges and then running any maps, loads, stores and replacements logs exactly the attempted reads of forbidden bytes, under the same condition; a configuration that is not accepted logs nothing |
| Detection.CalculateForbiddenVmRanges | gobble-lib/src/lib.rs:156-175 | succeeds exactly if the instruction exists and every range ends inside its data, with the ranges in guest memory |

## Left out

- Fetching, command line and printing of the gobble tools; calls into crates outside the repository.
- Forgetting the tracker's log, and watching single ranges.
- Register tracing, the debugger, the stop watch and runs with the meter switched off.
- Allocation, sealing and invocation of compiled code; machine code size estimates; the bytes of host instructions
  except the offsets of jumps. That the buffer is large enough is a premise of `JumpPatching.CodeBuffer.Compile`.
- JitCompiler.JitCompiler.Compile: lays out the operations that matter for metering and control; the data part of an
  instruction is one operation, whose host code is modelled for constants, products and quotients, calls and
  stores only.
- Pqr.EmitDelivers: emitted sequences are values, without no-ops between their instructions.
- HostCalls.PrologueEnters: the stride of fixed frames is below 2^31, as an immediate operand of the host
  instruction, and so is the depth limit; a comparison and the jump behind it are one instruction of the model.
- EbpfVm.EbpfVm.ExecuteProgram: a machine whose last run ended at the call depth limit has no call frame left, so a
  further call would panic the host; runs of such a machine are not modelled.
- EbpfVm.EbpfVm.Step: error values carry no addresses or texts; memory and syscalls are an arbitrary environment,
  so the mapping's own behaviour is stated in the memory modules.
- Dominators and the data flow graph of the static analysis; construction of the graph from instructions.
- TopologicalOrder.ControlFlowGraphTarjan: nodes are numbered and know their keys, not their instruction ranges; the
  names of new function entries are an arbitrary function, without hashes.
- Loading of ELF files, the parser and the disassembler, the instruction builder, hashing of names (an arbitrary
  function here), and the table of mnemonics: an arbitrary map in which only `lddw` is a wide load, and in which
  the opcodes of operations with two operands leave the source bit clear.
- Assembler.Assemble: the first pass wraps as a build without overflow checks does, where one with checks stops; the
  registry holds addresses, not names.
- Sysvar.CalculateForbiddenSysvarOffsets: offsets are unbounded integers; the layout is the documented one.
- Aligned memory allocation, benchmarks, the account decoder, and the second architecture's encoding tables.

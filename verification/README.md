# PVM engines: a verified model

The repository runs programs of the Polkadot virtual machine of the JAM Gray Paper, appendix A, on
three engines. Each one speeds something up, and this project models the fast forms and proves that
they mean the same as the simple ones.

- **Block-compiling interpreter.** `Engine` holds the theory of blocks over any instruction set: what a
  compiled block is, what the loop over cached blocks computes, how that relates to single-stepping, and
  where the gas goes. `Programs` and `Machine` are the PVM's instruction set: bitmask and skip, the whole
  dispatch table, operand decoding as written, and one function `Exec` giving every instruction's
  effect. `BlockInterpreter` is the engine itself, a class with the caches the program object keeps and
  methods with its loops, proved to compute `Engine.Interp`. `ControlFlow` proves what whole runs keep.
- **Laws by opcode.** What an instruction does is also stated from its bytes, independently of the
  decoder, the dispatch table and `Exec`: `Encoding` has bytes that decode back, for the thirteen operand
  layouts; `ControlLaws` the block ends, branches and jumps; `MemoryLaws` loads and stores, byte by byte;
  `RegisterLaws` the values, in plain integer arithmetic. Together they cover every opcode.
- **Word arithmetic.** `Words`, `Division` and `Isa` state results on natural numbers; `BitTricks`,
  `RegisterOps` and `Handlers` are the helpers and handlers in their own arithmetic (bit lists,
  shift-and-multiply sign extension, quotients rounded by `Decimal` or float division, then truncated).
- **Paged memory with a hot page.** `FlatMemory` checks every byte and caches nothing; `PagedMemory` is
  the class with sparse pages, permission arrays and the one-entry cache. Its ghost field `flat` is the
  flat memory it stands for, every method states what happens to it, and `MemoryTraces` lifts that to
  whole histories. `MemoryLayout` is the memory and the registers a program starts with.
- **Recompiler.** `X86` gives the emitted mnemonics their meaning from the Intel instruction set
  reference (volume 2); `CodeGen` has the sequences of the three-register instructions, their proofs and
  the class that emits them; `Metering` adds the gas check before each; `CompiledCode` has the loop that
  assembles a stretch of bytecode and compares running it with single-stepping;
  `AddressIndex`, `VmContext` and `JumpInd` are the address maps, the stored context and the compiled
  dynamic jump.
- **Codecs and the C forms.** `Naturals`, `Codecs` and `ProgramCodec` are the serialised formats;
  `WordMasks`, `CyMemory` and `CyBits` the C memory and bit helpers.

## Reading the model

- `x >> k` is floor division and `x & (2^k - 1)` the remainder, written as `Shr` and `Low` (which
  recurse on the amount) or as `/` and `%`; `Words.ShrIsDiv` relates the two. Registers are unbounded
  naturals, as Python's are, so that leaving 64 bits is something to prove about.
- A raised `PvmError` is `Raised(Panic, _)` or `Raised(PageFault(a), _)` with the state the handler had
  already changed; any other exception is `Crash`. Values that are not interpreter objects, such as the
  bytes an instruction assembles to in `AddressIndex`, are parameters.
- `Lawful(Pvm(p))` in a precondition holds for every program (`Machine.PvmLawful`).
- The heap break of the C memory is a natural number in the model, like the paged memory's; the source
  keeps it in a C `int` (`tsrkit_pvm/cpvm/cy_memory.pxd:23`), whose overflow is not modelled. No member of
  `CyMemory` changes it.
- The register list of the interpreter is an `array<nat>` of length 13, dictionaries are maps, guest
  pages are arrays, and handlers change them in place.

## Where code and documentation differ

The code is followed in each case.

- A taken jump or branch to its own position falls through.
- Two decoders look for the second operand in a window one byte too short (`Encoding.CutExactly`).
- A block that faults is neither charged nor advanced past, although its completed instructions keep
  their effects; gas on PANIC and page faults therefore counts completed blocks only.
- Page ranges of no bytes still have one page: an empty blob, stack or argument opens a page
  (`MemoryLayout.Opened`), and `sbrk` of zero bytes opens the page of the break.
- The 64-bit signed remainder singles out the dividend -2^31, not the overflowing -2^63; the remainder
  by -1 is zero for every dividend, so the result is right all the same.
- `sbrk` can push registers past 2^64; the handlers' results on such registers are modelled
  (`Isa.WordQuot`, `Isa.DivisionRaises`), and the range theorems say exactly when it does.
- The gas counter is a 64-bit field, but compiled code decrements its low 32 bits and looks at their
  sign: a counter with a low half above 2^31, or of zero, is refused whatever the upper half holds.
- `is_accessible` of the paged memory skips pages past 2^20, so it is true of ranges whose access faults.
- The number of jump-table entries is written as one byte and read as a variable-length natural, so
  programs with 128 or more entries do not come back.
- A jump table may point at the end of the bytecode, a block start where the interpreter panics; the
  recompiler rounds it down to the last instruction and its jump lands there.
- `mul_upper_s_u` never stores its result for destinations 0 and 2: the second is treated as rcx, which
  holds no guest register.
- The C memory reports the start of a refused range, not the first closed byte, and altering an empty
  range at address 0 alters every page. A range past 2^32 has a wrapped page count.

## Model

| member | source | states |
|---|---|---|
| `BlockInterpreter.Execute` | tsrkit_pvm/interpreter/pvm.py:53-104 | the outer loop, with the block cache and in-place registers and memory, ends in exactly the exit, pc, gas, registers and memory of `Engine.Interp` |
| `BlockInterpreter.InterpreterProgram.constructor` | tsrkit_pvm/interpreter/program.py:12-43 | the skip cache holds every position's skip, the basic-block set is the specified one, the block cache is empty |
| `BlockInterpreter.InterpreterProgram.FillSkipCache` | tsrkit_pvm/interpreter/program.py:19-29 | the quadratic forward search stores `Programs.Skip` at every position |
| `BlockInterpreter.InterpreterProgram.FindBasicBlocks` | tsrkit_pvm/interpreter/program.py:31-42 | the list built by the loop holds exactly the block starts |
| `BlockInterpreter.InterpreterProgram.Branch` | tsrkit_pvm/interpreter/program.py:60-67 | a branch not taken stays, a taken branch into a block start moves, any other taken branch panics |
| `BlockInterpreter.InterpreterProgram.Djump` | tsrkit_pvm/interpreter/program.py:69-80 | halts, panics or moves exactly as `Machine.DynamicJump` |
| `BlockInterpreter.InterpreterProgram.CompileBlock` | tsrkit_pvm/interpreter/instructions/inst_map.py:169-215 | the compile loop ends for every start and returns the specified block, its gas being one unit an instruction, or raises exactly when the specification does |
| `BlockInterpreter.InterpreterProgram.GetBlock` | tsrkit_pvm/interpreter/instructions/inst_map.py:160-167 | a block from the cache is what compiling its pc afresh gives, for every state of the cache the engine can reach |
| `BlockInterpreter.InterpreterProgram.ExecuteBlock` | tsrkit_pvm/interpreter/instructions/inst_map.py:71-101 | running pre-decoded instructions over the register list and the paged memory is the specified block run, charge included |
| `BlockInterpreter.InterpreterProgram.Handle` | tsrkit_pvm/interpreter/instructions/inst_map.py:137-144 | every handler does to registers and memory what `Machine.Exec` says, exceptions included |
| `BlockInterpreter.InterpreterProgram.GetImmOffset` | tsrkit_pvm/interpreter/instructions/tables/i_reg_i_imm_i_offset.py:18-41 | the decoder with the seven-byte window computes the specified operands |
| `BlockInterpreter.InterpreterProgram.GetRegTwoCut` | tsrkit_pvm/interpreter/instructions/tables/ii_reg_ii_imm.py:18-44 | the decoder with the nine-byte window computes the specified operands |
| `Engine.CompiledBlockShape` | tsrkit_pvm/interpreter/instructions/inst_map.py:169-215 | a compiled block holds, in order, the instructions that stepping would decode, and only its last one ends a block |
| `Engine.BlockIsSteps` | tsrkit_pvm/interpreter/instructions/inst_map.py:71-101 | running a compiled block from any of its instructions is stepping from there, with the charge counting the steps |
| `Engine.HeadsAreSteps` | tsrkit_pvm/interpreter/pvm.py:53-104 | at every loop head of every run, pc, registers and memory are those of single-stepping as many times as gas has been charged |
| `Engine.ExitMeaning` | tsrkit_pvm/interpreter/pvm.py:62-104 | gas used on HALT, HOST and OUT_OF_GAS is the number of instructions executed, the deficit is within the last block's charge, and on PANIC or a page fault gas counts the instructions of completed blocks only |
| `Engine.ExitsCoincide` | tsrkit_pvm/interpreter/instructions/inst_map.py:137-144 | every way the single-stepper can end is the way the block engine ends, with the same state, whenever the last block compiles and gas covers the steps or, for an exception, those of the blocks completed before |
| `Engine.ExitsCoincideExactly` | tsrkit_pvm/interpreter/instructions/inst_map.py:137-215 | and exactly when gas covers these and every block the engine comes to compiles, whatever instructions lie elsewhere |
| `Engine.LoopBound` | tsrkit_pvm/interpreter/pvm.py:53-68 | the outer loop comes round at most gas + 1 times |
| `Engine.EndsWithLastHead` | tsrkit_pvm/interpreter/pvm.py:53-104 | a run ends as the run from its last loop head does |
| `Programs.SkipMeaning` | tsrkit_pvm/interpreter/program.py:19-29 | the skip is the distance to the next set bit, the end counting as set, cut at 24 |
| `Programs.PaddingTraps` | tsrkit_pvm/core/program_base.py:25-28 | every position in the zero padding after the code holds trap |
| `Programs.BlockOrigin` | tsrkit_pvm/interpreter/program.py:31-42 | every block start but 0 follows an instruction that ends a block |
| `Machine.WhereControlGoes` | tsrkit_pvm/interpreter/instructions/tables/i_offset.py:33-37 | after any instruction control is at the next one or, after one that ends a block, at a block start; only ecalli leaves to the host |
| `Machine.PvmLawful` | tsrkit_pvm/interpreter/instructions/inst_map.py:169-215 | the instruction set meets what the engine theorems ask of one: positions rise strictly below the padded limit and control lands as above |
| `Machine.ExecKeepsRange` | tsrkit_pvm/interpreter/instructions/tables/iii_reg.py:108-357 | every instruction but sbrk keeps all registers 64-bit words and never ends in an unexpected exception on such registers |
| `Machine.SbrkRange` | tsrkit_pvm/interpreter/instructions/tables/ii_reg.py:94-101 | sbrk keeps them so exactly when the break plus the request is below 2^64 |
| `Machine.SbrkOverflows` | tsrkit_pvm/interpreter/instructions/tables/ii_reg.py:94-101 | a state in which it leaves a register above 2^64 |
| `ControlFlow.FollowingIsOpcode` | tsrkit_pvm/interpreter/program.py:19-29 | with set bits at most 25 apart, the position after an instruction is the next opcode or the end of code |
| `ControlFlow.BlocksAtOpcodes` | tsrkit_pvm/interpreter/program.py:31-42 | then every block start is an opcode position or the end of code |
| `ControlFlow.RunsStayAtOpcodes` | tsrkit_pvm/interpreter/instructions/inst_map.py:175-210 | every instruction a run executes sits at a set bit or exactly at the end of code |
| `ControlFlow.HeadsAtBlocks` | tsrkit_pvm/interpreter/program.py:60-80 | every loop head after the first is in the basic-block set |
| `ControlFlow.EndOfCodePanics` | tsrkit_pvm/core/program_base.py:25-28 | an instruction fetched at the end of code panics without changing anything |
| `ControlFlow.CompileFailsOnUnknown` | tsrkit_pvm/interpreter/instructions/inst_map.py:175-181 | compiling from an opcode position can only fail on an unknown opcode inside the code, never by leaving the padding |
| `ControlFlow.PvmExitsCoincide` | tsrkit_pvm/interpreter/instructions/inst_map.py:71-101 | each exit of the stepper is the engine's, with equal registers and memory, exactly when the gas covers it (a fault needs only its completed blocks covered) and every block the run comes to compiles |
| `ControlFlow.KnownProgramsCoincide` | tsrkit_pvm/interpreter/instructions/inst_map.py:71-101 | so every exit the gas covers coincides for programs whose opcodes are all known |
| `ControlFlow.RunsKeepRange` | tsrkit_pvm/interpreter/instructions/tables/ii_reg.py:94-101 | over any run, registers are 64-bit words at every configuration up to the n-th exactly when every sbrk before it keeps the break below 2^64 |
| `ControlFlow.SafeRuns` | tsrkit_pvm/interpreter/pvm.py:53-104 | a run whose opcodes are known and whose sbrks keep that bound ends in halt, host, out-of-gas, panic or page fault, never in another exception, and leaves 64-bit registers |
| `ControlLaws.BlockStartsByOpcode` | tsrkit_pvm/interpreter/program.py:31-42 | a position begins a block exactly when it is 0 or follows a set bit whose byte is 0, 1, 40, 50, 80-90, 170-175 or 180 |
| `ControlLaws.CompiledBlockByOpcode` | tsrkit_pvm/interpreter/instructions/inst_map.py:169-215 | a compiled block holds the instructions from its start to the first whose byte is one of these, padding counting as zero, and no further |
| `Encoding.DecodesExactly` | tsrkit_pvm/interpreter/instructions/inst_map.py:175-181 | exactly the known opcode bytes, listed by number, and the first 1000 zeros after the code decode |
| `Encoding.NoOperandsBack` | tsrkit_pvm/interpreter/instructions/tables/wo_args.py:16-17 | no operands for opcodes 0 and 1 |
| `Encoding.OneImmBack` | tsrkit_pvm/interpreter/instructions/tables/i_imm.py:18-28 | an immediate of up to four bytes, given by the distance to the next set bit, comes back sign-extended |
| `Encoding.RegImm64Back` | tsrkit_pvm/interpreter/instructions/tables/i_reg_i_ewimm.py:18-24 | a register and eight bytes come back |
| `Encoding.TwoImmBack` | tsrkit_pvm/interpreter/instructions/tables/ii_imm.py:18-36 | two immediates come back, the first as long as the second byte says, at most four |
| `Encoding.OneOffsetBack` | tsrkit_pvm/interpreter/instructions/tables/i_offset.py:18-25 | the target is the position plus the signed offset |
| `Encoding.RegImmBack` | tsrkit_pvm/interpreter/instructions/tables/i_reg_i_imm.py:19-24 | the register in the low half of the second byte, above 12 read as 12, and the immediate come back |
| `Encoding.RegTwoImmBack` | tsrkit_pvm/interpreter/instructions/tables/i_reg_ii_imm.py:19-34 | register and both immediates come back |
| `Encoding.RegImmOffsetBack` | tsrkit_pvm/interpreter/instructions/tables/i_reg_i_imm_i_offset.py:18-41 | register, immediate and target come back, but an offset that reaches beyond the window loses its upper bytes and its sign |
| `Encoding.CutExactly` | tsrkit_pvm/interpreter/instructions/tables/i_reg_i_imm_i_offset.py:29-39 | a cut offset or immediate is the one written exactly when nothing is cut off or it fits the bytes left without a sign |
| `Encoding.TwoRegBack` | tsrkit_pvm/interpreter/instructions/tables/ii_reg.py:19-27 | destination in the low half, source in the high half |
| `Encoding.TwoRegImmBack` | tsrkit_pvm/interpreter/instructions/tables/ii_reg_i_imm.py:19-36 | first register in the low half, second in the high half, and the immediate |
| `Encoding.TwoRegOffsetBack` | tsrkit_pvm/interpreter/instructions/tables/ii_reg_i_offset.py:19-36 | both registers and the target come back |
| `Encoding.TwoRegTwoImmBack` | tsrkit_pvm/interpreter/instructions/tables/ii_reg_ii_imm.py:18-44 | both registers and immediates come back, the second cut where it reaches beyond the window |
| `Encoding.ThreeRegBack` | tsrkit_pvm/interpreter/instructions/tables/iii_reg.py:21-30 | operands in the low and high half of the second byte, destination in the third |
| `ControlLaws.BranchLaw` | tsrkit_pvm/interpreter/instructions/tables/ii_reg_i_offset.py:67-79 | from the bytes of opcodes 170-175: the step goes to position plus offset exactly when the two registers are equal, different, less or at least, signed or not, as the opcode says; to no block start it panics, to itself or untaken it goes on |
| `ControlLaws.BranchImmLaw` | tsrkit_pvm/interpreter/instructions/tables/i_reg_i_imm_i_offset.py:119-134 | the same for opcodes 81-90 with a sign-extended immediate on the right |
| `ControlLaws.ExactlyOneTakes` | tsrkit_pvm/interpreter/instructions/tables/ii_reg_i_offset.py:46-60 | of two programs that differ only in less-than against at-least, signed or not, exactly one takes the branch |
| `ControlLaws.JumpLaw` | tsrkit_pvm/interpreter/instructions/tables/i_offset.py:33-37 | opcode 40 always branches |
| `ControlLaws.LoadImmJumpLaw` | tsrkit_pvm/interpreter/instructions/tables/i_reg_i_imm_i_offset.py:111-116 | opcode 80 sets the register and branches; the register stays set when it panics |
| `ControlLaws.JumpIndLaw` | tsrkit_pvm/interpreter/instructions/tables/i_reg_i_imm.py:50-54 | opcode 50 halts at address 0xFFFF0000, panics at 0, odd addresses, those past the table and entries that begin no block, and else continues at the entry |
| `ControlLaws.LoadImmJumpIndLaw` | tsrkit_pvm/interpreter/instructions/tables/ii_reg_ii_imm.py:57-61 | opcode 180 does so from the old value of the second register, having set the first |
| `ControlLaws.NoOperandsLaw` | tsrkit_pvm/interpreter/instructions/tables/wo_args.py:28-38 | opcode 0 panics, opcode 1 goes on, nothing else changes |
| `ControlLaws.EcalliLaw` | tsrkit_pvm/interpreter/instructions/tables/i_imm.py:36-40 | opcode 10 leaves to the host with the immediate, pc after the instruction |
| `MemoryLaws.StoreImmLaw` | tsrkit_pvm/interpreter/instructions/tables/ii_imm.py:56-72 | from the bytes of opcodes 30-33: the low 1, 2, 4 or 8 bytes of the second immediate are at the first one modulo 2^32, every other byte, permission and register as before, or the first page not writable faults |
| `MemoryLaws.StoreLaw` | tsrkit_pvm/interpreter/instructions/tables/i_reg_i_imm.py:73-82 | the same for opcodes 59-62 and a register |
| `MemoryLaws.StoreImmIndLaw` | tsrkit_pvm/interpreter/instructions/tables/i_reg_ii_imm.py:66-74 | for opcodes 70-73, an immediate at a register plus an immediate |
| `MemoryLaws.StoreIndLaw` | tsrkit_pvm/interpreter/instructions/tables/ii_reg_i_imm.py:338-346 | for opcodes 120-123, the first register at the second plus an immediate |
| `MemoryLaws.LoadLaw` | tsrkit_pvm/interpreter/instructions/tables/i_reg_i_imm.py:63-93 | from the bytes of opcodes 52-58: the register gets the bytes at the immediate, least significant first, sign-extended for exactly 53, 55 and 57, or nothing changes and the first address not readable faults |
| `MemoryLaws.LoadIndLaw` | tsrkit_pvm/interpreter/instructions/tables/ii_reg_i_imm.py:349-360 | for opcodes 124-130, from the second register plus an immediate, sign-extended for exactly 125, 127 and 129 |
| `MemoryLaws.StoreThenLoad` | tsrkit_pvm/interpreter/instructions/tables/ii_reg_i_imm.py:338-360 | two steps: what a register store put at an address a load of the same width brings back, modulo 2^(8n) or as its signed reading |
| `RegisterLaws.ResultsAre` | tsrkit_pvm/interpreter/instructions/tables/iii_reg.py:30-357 | the value behind each of the 41 three-register opcodes in plain arithmetic: integer division with 2^64 - 1 for a zero divisor, powers of two for shifts and rotations, digits for logic |
| `RegisterLaws.ThreeRegLaw` | tsrkit_pvm/interpreter/instructions/tables/iii_reg.py:21-357 | from the bytes of opcodes 190-230: one step writes that result of the first two registers into the third and changes nothing else |
| `RegisterLaws.ImmediateLaw` | tsrkit_pvm/interpreter/instructions/tables/ii_reg_i_imm.py:19-335 | opcodes 131-161 write the result of the register form named for each, the immediate being the second operand or, for the negated, greater-than, conditional and alternative ones, the first |
| `RegisterLaws.TwoRegLaw` | tsrkit_pvm/interpreter/instructions/tables/ii_reg.py:19-159 | opcodes 100 and 102-111: moves, ones counted digit by digit, leading and trailing zeros by bounds and divisibility, extensions, reversed bytes |
| `RegisterLaws.SbrkLaw` | tsrkit_pvm/interpreter/instructions/tables/ii_reg.py:94-101 | opcode 101: the break moves up by the register and is returned, the pages between become writable and nothing else changes |
| `RegisterLaws.LoadImmLaw` | tsrkit_pvm/interpreter/instructions/tables/i_reg_i_imm.py:56-61 | opcode 51 sets a register to the sign-extended immediate |
| `RegisterLaws.LoadImm64Law` | tsrkit_pvm/interpreter/instructions/tables/i_reg_i_ewimm.py:34-39 | opcode 20 sets it to eight bytes |
| `PagedMemory.Memory.constructor` | tsrkit_pvm/interpreter/memory.py:37-76 | the new memory stands for the flat memory holding the data and permissions given, pages past 2^20 ignored |
| `PagedMemory.Memory.BulkLoad` | tsrkit_pvm/interpreter/memory.py:78-96 | sparse loading with a remembered current page stores the last value given for each address |
| `PagedMemory.Memory.Read` | tsrkit_pvm/interpreter/memory.py:152-185 | a read, hot page or not, returns or faults as the check-every-byte memory |
| `PagedMemory.Memory.ReadMultipage` | tsrkit_pvm/interpreter/memory.py:187-211 | the chunked read over several pages does the same |
| `PagedMemory.Memory.Write` | tsrkit_pvm/interpreter/memory.py:213-249 | a write, hot page or not, leaves the bytes and reports the fault that the check-every-byte memory does |
| `PagedMemory.Memory.WriteMultipage` | tsrkit_pvm/interpreter/memory.py:251-278 | the page-by-page write stores exactly what lies below the first fault |
| `PagedMemory.Memory.ZeroMemoryRange` | tsrkit_pvm/interpreter/memory.py:364-378 | exactly the bytes of the given pages become zero, permissions unchanged |
| `PagedMemory.Memory.AlterAccessibility` | tsrkit_pvm/interpreter/memory.py:380-414 | exactly the touched pages change permission, and the hot page never outlives the permission it was cached under |
| `PagedMemory.Memory.IsAccessible` | tsrkit_pvm/interpreter/memory.py:284-295 | the answer is that of the flat memory |
| `FlatMemory.FaultLaw` | tsrkit_pvm/interpreter/memory.py:165-278 | a read reports the least address of the range in a closed page; a faulting write has stored exactly the bytes below it and changed nothing else |
| `FlatMemory.ReadAfterWrite` | tsrkit_pvm/interpreter/memory.py:213-278 | what a write stored without a fault is read back |
| `FlatMemory.AlterLaw` | tsrkit_pvm/interpreter/memory.py:380-414 | after a permission change exactly the bytes of the touched pages may be read and written as it says, an empty range touching one page |
| `FlatMemory.ZeroLaw` | tsrkit_pvm/interpreter/memory.py:364-378 | zeroing clears exactly the bytes from 4096 * start on, 4096 a page |
| `FlatMemory.NothingAsked` | tsrkit_pvm/interpreter/memory.py:284-288 | empty ranges are accessible, and all when nothing is asked |
| `FlatMemory.AccessibleExactly` | tsrkit_pvm/interpreter/memory.py:284-295 | inside the address space the test is true exactly when the matching read or write succeeds |
| `FlatMemory.AccessibleLaw` | tsrkit_pvm/interpreter/memory.py:284-295 | for every address below 2^32, every non-empty range and both kinds of access, the test tells whether the access succeeds exactly when the range ends by 2^32 or its part below 2^32 is already refused |
| `FlatMemory.AccessibleWraps` | tsrkit_pvm/interpreter/memory.py:284-295 | from 2^32 on the test is always true, while the access uses the wrapped address and succeeds exactly when the wrapped range ends by 2^32 and tests as accessible |
| `FlatMemory.AccessiblePastTheEnd` | tsrkit_pvm/interpreter/memory.py:284-295 | one such range: the test is true and the read faults |
| `MemoryTraces.ReplayPaged` | tsrkit_pvm/interpreter/memory.py:152-414 | any sequence of reads, writes, zeroings, permission changes and tests is answered as the flat memory answers it |
| `MemoryTraces.ReplayC` | tsrkit_pvm/cpvm/cy_memory.pyx:181-313 | any sequence of requests whose arguments the C signatures hold, faults and wrapping ranges included, is answered as the specification of the C memory says: all-or-nothing writes, faults at the start of the range, permissions of the pages the 32-bit loops visit |
| `MemoryTraces.HistoriesAgree` | tsrkit_pvm/cpvm/cy_memory.pyx:181-313 | any sequence inside the address space that the paged memory serves without a fault gets the same answers, contents and permissions from the C memory |
| `Handlers.LoadInto` | tsrkit_pvm/interpreter/instructions/tables/ii_reg_i_imm.py:348-360 | a load puts the little-endian bytes, sign-extended where asked, in the register or leaves everything as it was and faults |
| `Handlers.StoreFrom` | tsrkit_pvm/interpreter/instructions/tables/ii_reg_i_imm.py:337-346 | a store writes the low bytes of the register |
| `Handlers.GrowHeap` | tsrkit_pvm/interpreter/instructions/tables/ii_reg.py:94-101 | sbrk opens the pages of the requested range and returns the new break |
| `MemoryLayout.FromPc` | tsrkit_pvm/interpreter/memory.py:322-362 | the initial memory holds each blob at its place and zeros elsewhere, opens exactly the four regions, and puts the heap break right after the writable data |
| `MemoryLayout.RegionsApart` | tsrkit_pvm/interpreter/memory.py:326-357 | for every blob the code format can hold, read-only data from 0x10000, data and heap, stack up to 0xFEFE0000 and arguments from 0xFEFF0000 are disjoint, in this order, inside 2^32 |
| `MemoryLayout.RegionsAligned` | tsrkit_pvm/common/utils.py:28-49 | each region is whole pages |
| `MemoryLayout.LoadedIsInitial` | tsrkit_pvm/interpreter/memory.py:322-362 | loading with the computed page lists gives that memory: every address is closed except in the four regions, every readable byte is its blob byte or zero |
| `MemoryLayout.MemoryByAddress` | tsrkit_pvm/interpreter/memory.py:322-362 | by address: read-only data at 0x10000, writable data at 0x20000 plus the read-only size in zones, then z pages and the break, arguments at 0xFEFF0000 |
| `MemoryLayout.HeapBreakIsFirstClosed` | tsrkit_pvm/interpreter/memory.py:345-345 | the byte before the heap break is writable, the byte at it is closed |
| `MemoryLayout.RegistersPointAtMemory` | tsrkit_pvm/core/code.py:85-91 | register 0 is 0xFFFF0000, register 1 0xFEFE0000, register 7 0xFEFF0000, register 8 the length of the arguments, the others 0; between the heap break and the arguments exactly the stack, its size in whole pages below register 1, is writable, or one page from register 1 on for no stack; reading register 8 bytes at register 7 gives the arguments, which are not writable |
| `MemoryLayout.RegsFromPc` | tsrkit_pvm/core/code.py:85-91 | the 13 start values |
| `BitTricks.ChiSignExtends` | tsrkit_pvm/common/utils.py:53-62 | shift-and-multiply is two's-complement sign extension for values that fit in n bytes |
| `BitTricks.ZInvOf64` | tsrkit_pvm/common/utils.py:79-88 | adding the modulus and masking is reduction modulo 2^64 |
| `BitTricks.B` | tsrkit_pvm/common/utils.py:94-115 | the byte-by-byte bit list holds the bits of the value |
| `BitTricks.BInv` | tsrkit_pvm/common/utils.py:117-129 | summing powers of two over a bit list gives the number with those bits |
| `BitTricks.BThenBInv` | tsrkit_pvm/common/utils.py:94-129 | `b_inv` undoes `b` modulo 2^(8n) |
| `BitTricks.ListOp` | tsrkit_pvm/interpreter/instructions/tables/iii_reg.py:247-269 | and, or, xor on bit lists, with inverted operand or result, are the bitwise operations |
| `BitTricks.RotateLeft` | tsrkit_pvm/interpreter/instructions/tables/iii_reg.py:330-336 | the list permutation is left rotation by the amount modulo the width |
| `BitTricks.RotateRight` | tsrkit_pvm/interpreter/instructions/tables/iii_reg.py:338-348 | the list permutation is right rotation by the amount modulo the width |
| `Words.RotationsInverse` | tsrkit_pvm/interpreter/instructions/tables/iii_reg.py:330-357 | left and right rotation undo each other for every amount |
| `Words.RotRArithmetic` | tsrkit_pvm/interpreter/instructions/tables/ii_reg_i_imm.py:302-317 | right rotation is v div 2^k + (v mod 2^k) * 2^(n-k) |
| `Words.LeadingZerosBound` | tsrkit_pvm/interpreter/instructions/tables/ii_reg.py:113-125 | a word with c leading zeros lies between 2^(n-c-1) and 2^(n-c) |
| `Words.TrailingZerosDivides` | tsrkit_pvm/interpreter/instructions/tables/ii_reg.py:127-139 | the bit above the trailing zeros is set, all below are clear |
| `Words.LeRoundTrip` | tsrkit_pvm/interpreter/instructions/tables/ii_reg.py:155-159 | fixed-width little-endian bytes read back |
| `Words.LeRoundTripBytes` | tsrkit_pvm/interpreter/instructions/tables/ii_reg.py:155-159 | and so do the bytes of a number |
| `Words.ToLeByte` | tsrkit_pvm/interpreter/instructions/tables/ii_reg.py:155-159 | byte k of a number is its quotient by 256^k modulo 256 |
| `RegisterOps.Compute3` | tsrkit_pvm/interpreter/instructions/tables/iii_reg.py:108-357 | each three-register handler's arithmetic gives the instruction set's word-level value for all operands |
| `RegisterOps.ComputeImm` | tsrkit_pvm/interpreter/instructions/tables/ii_reg_i_imm.py:208-335 | so do the immediate forms, in both operand orders |
| `RegisterOps.Compute2` | tsrkit_pvm/interpreter/instructions/tables/ii_reg.py:90-159 | so do moves, counts, extensions and byte reversal |
| `RegisterOps.QuotientS` | tsrkit_pvm/interpreter/instructions/tables/iii_reg.py:154-179 | division through a rounded and truncated quotient gives the signed quotient, zero divisors and overflow included |
| `RegisterOps.SmodIsTruncRem` | tsrkit_pvm/common/utils.py:185-193 | `smod` is the remainder of truncating division |
| `Division.TruncationExact` | tsrkit_pvm/interpreter/instructions/tables/iii_reg.py:145-152 | truncating a quotient rounded half-even to p significant digits gives the integer quotient for every dividend below 2 * base^(p-1) |
| `Division.DecimalQuotientExact` | tsrkit_pvm/interpreter/instructions/tables/iii_reg.py:145-179 | so 28 decimal digits are enough for every 64-bit dividend |
| `Division.FloatQuotientExact` | tsrkit_pvm/interpreter/instructions/tables/iii_reg.py:154-165 | and a 53-bit significand for every 32-bit dividend |
| `Division.TruncDivRem` | tsrkit_pvm/common/utils.py:185-193 | truncating quotient and remainder recombine, the remainder being smaller than the divisor with the dividend's sign |
| `Isa.DivRemUnsigned64` | tsrkit_pvm/interpreter/instructions/tables/iii_reg.py:145-191 | for b other than 0 quotient and remainder are a / b and a % b; for b = 0 they are 2^64 - 1 and a; b * quotient + remainder is a modulo 2^64 |
| `Isa.DivRemSigned64` | tsrkit_pvm/interpreter/instructions/tables/iii_reg.py:167-209 | the recombination for signed operands, minimum by -1 included, with the remainder smaller than b in magnitude and the dividend's sign; 2^64 - 1 and a for a zero divisor |
| `Isa.DivRemUnsigned32` | tsrkit_pvm/interpreter/instructions/tables/iii_reg.py:136-185 | the low halves divided, both results sign-extended from 32 bits; for a zero divisor the full word 2^64 - 1 and the sign-extended dividend |
| `Isa.DivRemSigned32` | tsrkit_pvm/interpreter/instructions/tables/iii_reg.py:154-200 | the signed law on the low 32 bits, with 2^64 - 1 and the sign-extended dividend for a zero divisor |
| `Isa.ProductsRecombine` | tsrkit_pvm/interpreter/instructions/tables/iii_reg.py:271-289 | each of the three upper products times 2^64 plus `mul_64` is the full product |
| `Isa.Value3InRange` | tsrkit_pvm/interpreter/instructions/tables/iii_reg.py:108-357 | every three-register result on 64-bit words is a 64-bit word |
| `CodeGen.CompiledComputes` | tsrkit_pvm/recompiler/assembler/tables/iii_reg.py:90-1284 | for opcodes 190-191, 197-202, 207-212 and 217-230 and every choice of registers, equal ones included, the emitted code leaves the interpreter's value in rd, every other guest register, the context pointer and the stack unchanged |
| `CodeGen.CommuteYields` | tsrkit_pvm/recompiler/assembler/tables/iii_reg.py:90-150 | add, mul_64, and, or, xor: each aliasing branch yields the result |
| `CodeGen.SubYields` | tsrkit_pvm/recompiler/assembler/tables/iii_reg.py:152-210 | sub: the branch that negates and adds yields a - b |
| `CodeGen.ShiftYields` | tsrkit_pvm/recompiler/assembler/tables/iii_reg.py:631-735 | shifts and rotates: saving the amount first when rd is rb yields the masked shift of the operand |
| `CodeGen.ShiftedIsValue` | tsrkit_pvm/interpreter/instructions/tables/iii_reg.py:211-245 | the masked, truncated x86 shift, sign-extended at 32 bits, is the interpreter's value |
| `CodeGen.InvertedYields` | tsrkit_pvm/recompiler/assembler/tables/iii_reg.py:1074-1138 | and_inv and or_inv under every aliasing |
| `CodeGen.InvertedValue` | tsrkit_pvm/interpreter/instructions/tables/iii_reg.py:247-269 | inverting an operand or the result first gives the inverted forms |
| `CodeGen.XnorYields` | tsrkit_pvm/recompiler/assembler/tables/iii_reg.py:1140-1171 | xnor under every aliasing |
| `CodeGen.SetLtSYields` | tsrkit_pvm/recompiler/assembler/tables/iii_reg.py:959-970 | set_lt_s, though rd is cleared before the flag is stored |
| `CodeGen.CmovYields` | tsrkit_pvm/recompiler/assembler/tables/iii_reg.py:972-996 | the conditional moves |
| `CodeGen.ExtremeYields` | tsrkit_pvm/recompiler/assembler/tables/iii_reg.py:1173-1284 | minima and maxima under every aliasing |
| `CodeGen.CompareMeans` | tsrkit_pvm/recompiler/assembler/tables/iii_reg.py:1173-1284 | the conditions after cmp are the signed and unsigned orders |
| `CodeGen.NegatedHigh` | tsrkit_pvm/recompiler/assembler/tables/iii_reg.py:893-908 | -(hi + (lo != 0)) is the floor of the negated product over 2^64 |
| `CodeGen.MixedProductRuns` | tsrkit_pvm/recompiler/assembler/tables/iii_reg.py:873-916 | through either jump, rdx ends up with the signed-by-unsigned upper product and the pushed registers are on the stack |
| `CodeGen.MulUpperSURuns` | tsrkit_pvm/recompiler/assembler/tables/iii_reg.py:865-942 | the stack is balanced for every destination and the result is in rd, except that destinations 0 and 2 keep their old value |
| `CodeGen.MulUpperSUExactly` | tsrkit_pvm/recompiler/assembler/tables/iii_reg.py:922-942 | the sequence is correct for all inputs exactly when rd is neither 0 nor 2 |
| `CodeGen.Assembler.EmitOp` | tsrkit_pvm/recompiler/assembler/tables/iii_reg.py:90-1284 | the emitting methods append, branch by branch, the code proved correct |
| `CodeGen.Assembler.EmitMulUpperSU` | tsrkit_pvm/recompiler/assembler/tables/iii_reg.py:865-942 | the emitting method appends the mixed product with two fresh labels |
| `Metering.CheckRuns` | tsrkit_pvm/recompiler/program.py:173-193 | the gas check takes one unit off the counter's low half and changes nothing else when that half is between 1 and 2^31; otherwise it leaves through the bytes of its own jump with r15 still moved |
| `Metering.MeteredRuns` | tsrkit_pvm/recompiler/program.py:152-197 | code for any sequence of covered instructions runs as many of them as the counter grants, each charged one unit, and leaves at the next one before it has any effect on guest registers |
| `Metering.PlainRuns` | tsrkit_pvm/recompiler/program.py:152-197 | with gas disabled the code takes the guest registers where interpreting the sequence takes them |
| `Metering.ChargesEach` | tsrkit_pvm/recompiler/program.py:173-193 | code that runs to its end has taken exactly its number of instructions off the 64-bit counter |
| `Metering.ReportsExactly` | tsrkit_pvm/recompiler/pvm.py:147-151 | what is reported after a refusal is the gas minus the instructions run and the one refused exactly when the counter's low half was at most 2^31 |
| `Metering.CoversExactly` | tsrkit_pvm/recompiler/program.py:173-193 | exactly which counters the check judges rightly: those up to 2^31, those whose low half lies between n and 2^31, and those that do not cover n either |
| `CompiledCode.PositionsAreSetBits` | tsrkit_pvm/recompiler/program.py:152-161 | with set bits at most 25 apart, the instructions the interpreter runs on a stretch sit, in order, at exactly its set bits |
| `CompiledCode.RangeIsEntries` | tsrkit_pvm/recompiler/program.py:152-197 | what is emitted from an opcode to the end of the n-th instruction is a labelled, charged entry for each of these n instructions and nothing else |
| `CompiledCode.CodeIsSteps` | tsrkit_pvm/recompiler/program.py:152-197 | what is emitted for a stretch without gas leaves the guest registers that as many single steps of the interpreter leave, which touch no memory |
| `CompiledCode.MeteredCodeIsSteps` | tsrkit_pvm/recompiler/program.py:152-197 | with gas it does what k steps do, k being the number the counter grants, and the counter is down by n at the end, or by k + 1 where it leaves |
| `CompiledCode.CoveredOpcodes` | tsrkit_pvm/recompiler/assembler/tables/iii_reg.py:90-1284 | the covered opcodes are exactly 190, 191, 197-202, 207-212 and 217-230 |
| `CompiledCode.CompiledByOpcode` | tsrkit_pvm/recompiler/assembler/tables/iii_reg.py:90-1284 | their machine code puts the result that the opcode has in plain arithmetic in rd, and leaves all other guest registers |
| `CompiledCode.DeclareLabels` | tsrkit_pvm/recompiler/program.py:132-134 | opcode positions, and no others, get a label each, numbered in order |
| `CompiledCode.AssembleRange` | tsrkit_pvm/recompiler/program.py:152-197 | the loop over code positions appends, at each set bit, its label, the gas check if enabled, and the handler's code |
| `X86.RunConcat` | tsrkit_pvm/recompiler/program.py:152-197 | code that falls off its end runs on into what is placed after it, labels and all |
| `X86.RolTimesIsRotL` | tsrkit_pvm/recompiler/assembler/tables/iii_reg.py:998-1034 | rotating bit by bit through cl is word rotation |
| `JumpInd.JumpIndRoutes` | tsrkit_pvm/recompiler/assembler/tables/i_reg_i_imm.py:64-127 | for every register and immediate the checks halt, panic or jump through the table slot at r15 - size + 8 * index, as the 32-bit address says |
| `JumpInd.JumpIndLands` | tsrkit_pvm/recompiler/assembler/tables/i_reg_i_imm.py:64-127 | given the stored context, for any costs, the compiled jump goes to the code of what the interpreter does next (an opcode position, or the panic label where `djump` or the end of the bytecode panics) exactly when the entry the address selects, if any, is a block start at an opcode position, or lies where the interpreter panics and nothing is emitted from the opcode below it on |
| `JumpInd.JumpIndLandsWithGas` | tsrkit_pvm/recompiler/program.py:173-193 | so with gas exactly when it is a block start at an opcode position, or the bytecode has no opcode at all and the interpreter does not start inside it |
| `JumpInd.ServedWellSpaced` | tsrkit_pvm/interpreter/program.py:31-42 | for set bits at most 25 apart these are the block starts other than the end of the bytecode |
| `JumpInd.PastTheCodePanics` | tsrkit_pvm/core/program_base.py:25-28 | a block start outside the code is its very end, and the interpreter panics there without changing anything |
| `JumpInd.EndOfCodeLands` | tsrkit_pvm/recompiler/program.py:246-269 | an input where the two part: an entry at the end of the bytecode is a block start where the interpreter panics, and the compiled jump, rounded down, lands on the jump itself |
| `JumpInd.StrayEntryLands` | tsrkit_pvm/recompiler/assembler/tables/i_reg_i_imm.py:64-127 | another: with a table entry at an operand byte the interpreter panics and the compiled jump lands on the instruction before |
| `JumpInd.JumpIndLandsOnRecorded` | tsrkit_pvm/recompiler/pvm.py:84-90 | when the selected entry is an opcode position that begins a block, it lands on the machine address recorded for the pc `djump` returns |
| `JumpInd.EmitJumpInd` | tsrkit_pvm/recompiler/assembler/tables/i_reg_i_imm.py:64-127 | the emitting method appends that code |
| `VmContext.FieldsFromTheEnd` | tsrkit_pvm/recompiler/vm_context.py:56-62 | counted back from r15 the fields are at 140, 132, 28, 20, 12 and 4 for every table length, and table entry k is at 8k from the start of the block |
| `VmContext.RoundTrip` | tsrkit_pvm/recompiler/vm_context.py:109-146 | reading back a stored context gives its fields cut to their widths, for every context |
| `VmContext.HostMemory.Store` | tsrkit_pvm/recompiler/vm_context.py:175-228 | storing field after field at a moving offset writes exactly the encoded context below guest memory and nothing else |
| `VmContext.HostMemory.FromPointer` | tsrkit_pvm/recompiler/vm_context.py:109-146 | reading field after field gives the decoded context, or fails on another table length |
| `AddressIndex.RecompilerProgram.constructor` | tsrkit_pvm/recompiler/program.py:57-119 | the structures built from the bitmask are the specified ones |
| `AddressIndex.RecompilerProgram.BuildSkips` | tsrkit_pvm/recompiler/program.py:80-87 | the single reverse pass stores `ReverseSkip` |
| `AddressIndex.SkipsAgreeExactly` | tsrkit_pvm/recompiler/program.py:83-87 | the reverse pass gives the interpreter's skip exactly at positions with a later opcode before the end of code, and at the last byte |
| `AddressIndex.RecompilerProgram.Assemble` | tsrkit_pvm/recompiler/program.py:143-220 | the assemble loop records every opcode's address in both directions, sorts the breakpoints, and raises exactly when some opcode has no handler |
| `AddressIndex.RecompilerProgram.MsnToPvmIndex` | tsrkit_pvm/recompiler/program.py:222-244 | hash look-up and binary search give the last opcode whose code begins at or before the address |
| `AddressIndex.RecompilerProgram.PvmToMsnIndex` | tsrkit_pvm/recompiler/program.py:246-269 | the array look-up with its downward search gives the address of the nearest opcode at or before pc |
| `AddressIndex.BisectRight` | tsrkit_pvm/recompiler/program.py:238-238 | the number of sorted elements not above x |
| `AddressIndex.Adjoint` | tsrkit_pvm/recompiler/program.py:222-269 | for an opcode pc and x past the first breakpoint, `pvm_to_msn_index(pc) <= x` iff `pc <= msn_to_pvm_index(x)` |
| `AddressIndex.RoundsDown` | tsrkit_pvm/recompiler/program.py:222-244 | from a machine address there and back is the start of the instruction it lies in |
| `AddressIndex.RoundTripExactly` | tsrkit_pvm/recompiler/program.py:152-197 | position to address and back is the identity exactly when the instruction's code takes room or no opcode follows |
| `AddressIndex.RoundTripWithGas` | tsrkit_pvm/recompiler/program.py:173-193 | a gas check of at least one byte, whatever the handlers emit, makes addresses rise strictly and the maps undo each other on opcode positions |
| `AddressIndex.RoundTripNeedsRoom` | tsrkit_pvm/recompiler/assembler/tables/ii_reg.py:90-93 | without it a move of a register to itself, which emits nothing, is lost: its position comes back as the next opcode's |
| `Codecs.EncodeCode` | tsrkit_pvm/core/code.py:60-82 | writes exactly `encode_size` bytes at the offset, the blob's format, and nothing else |
| `Codecs.DecodeCode` | tsrkit_pvm/core/code.py:33-55 | decodes any bytes, cut off or not |
| `Codecs.CodeRoundTrip` | tsrkit_pvm/core/code.py:33-82 | decoding recovers every blob whose fields fit their widths, whatever follows it |
| `Codecs.CodeLayout` | tsrkit_pvm/core/code.py:60-82 | lengths at bytes 0, 3, 6 and 8, then read-only data, writable data, the length of the code and the code, in this order |
| `Codecs.CodeDecodeEncode` | tsrkit_pvm/core/code.py:33-82 | encoding what was decoded from a complete buffer gives its bytes back |
| `ProgramCodec.UnpackBits` | tsrkit_pvm/core/program_base.py:121-150 | the unrolled full-byte loop and the remainder loop give bit i % 8 of byte i / 8, missing bytes as zeros |
| `ProgramCodec.EncodeProgram` | tsrkit_pvm/core/program_base.py:50-79 | writes the program's format at the offset and nothing else |
| `ProgramCodec.DecodeProgram` | tsrkit_pvm/core/program_base.py:82-155 | decodes any bytes as specified, or raises where a length cannot be read |
| `ProgramCodec.ProgramRoundTrip` | tsrkit_pvm/core/program_base.py:50-155 | decoding recovers all four fields of every program with fewer than 128 jump entries that each fit z bytes |
| `ProgramCodec.ProgramRoundTripExactly` | tsrkit_pvm/core/program_base.py:50-155 | and of no program with 128 or more: one-byte writing of the count, variable-length reading |
| `ProgramCodec.ProgramLayout` | tsrkit_pvm/core/program_base.py:50-79 | number of entries, entry size, length of the code, entries, code, bitmask, in this order |
| `ProgramCodec.EntryByte` | tsrkit_pvm/core/program_base.py:66-69 | byte i of entry k is at k * z + i, the least significant first |
| `ProgramCodec.PackedDigit` | tsrkit_pvm/core/program_base.py:75-79 | bit j of the bitmask is digit j % 8 of byte j / 8 |
| `Naturals.NatRoundTrip` | tsrkit_pvm/core/program_base.py:99-109 | the natural-number coding of lengths reads back, with its size |
| `Naturals.NatLayout` | tsrkit_pvm/core/program_base.py:99-109 | the least number of following bytes, the prefix of ones in the first byte with the top bits, and the rest, least significant first |
| `CyMemory.Memory.SetAccess` | tsrkit_pvm/cpvm/cy_memory.pyx:148-166 | or-ing or clearing a mask in word page >> 6 changes exactly that page's permission |
| `CyMemory.Memory.HasAccess` | tsrkit_pvm/cpvm/cy_memory.pyx:134-146 | testing the mask answers for exactly that page, false past 2^20 |
| `CyMemory.CheckIsExact` | tsrkit_pvm/cpvm/cy_memory.pyx:44-50 | the check of the 32-bit page range passes exactly when every byte may be accessed, also for ranges past 2^32, whose page count wraps |
| `CyMemory.Memory.Read` | tsrkit_pvm/cpvm/cy_memory.pyx:243-280 | returns the flat memory's bytes, or reports the start of the range |
| `CyMemory.Memory.Write` | tsrkit_pvm/cpvm/cy_memory.pyx:283-313 | stores all of the data or changes nothing |
| `CyMemory.WriteIsAtomic` | tsrkit_pvm/cpvm/cy_memory.pyx:283-313 | a write changes exactly its range or faults and changes nothing; no range past 2^32 goes through |
| `CyMemory.Memory.IsAccessible` | tsrkit_pvm/cpvm/cy_memory.pyx:221-233 | true exactly when the pages visited by the 32-bit loop are all allowed, or the range is empty |
| `CyMemory.Memory.AlterAccessibility` | tsrkit_pvm/cpvm/cy_memory.pyx:181-195 | sets the permission of the pages the 32-bit loops visit |
| `CyMemory.LongCheckIsExact` | tsrkit_pvm/cpvm/cy_memory.pyx:44-50 | for every range: the test is exact inside the address space and for wrapped ranges that stop two pages short of their own start; one that comes round to its first page is judged by that page, one that reaches the page before it by none |
| `CyMemory.VisitedPastEnd` | tsrkit_pvm/cpvm/cy_memory.pyx:44-50 | which pages a range past 2^32 visits: those from its first up and those to its wrapped last, or one page, or none |
| `CyMemory.AlterExactly` | tsrkit_pvm/cpvm/cy_memory.pyx:181-195 | for every range, empty or wrapping, altering does what the paged memory does exactly when each page only one of them touches has the permission already |
| `CyMemory.AlterAgrees` | tsrkit_pvm/cpvm/cy_memory.pyx:181-195 | the two alter alike, for every memory and permission, exactly for non-empty ranges inside the address space, empty ranges off page boundaries, and ranges that come round from the last page to itself |
| `CyMemory.AlterInside` | tsrkit_pvm/cpvm/cy_memory.pyx:181-195 | for non-empty ranges inside the address space the two alter the same pages |
| `CyMemory.Memory.ZeroMemoryRange` | tsrkit_pvm/cpvm/cy_memory.pyx:211-219 | exactly the given pages become zero, none when the range wraps |
| `CyMemory.Memory.constructor` | tsrkit_pvm/cpvm/cy_memory.pyx:85-131 | the new memory stands for the data and permissions given |
| `CyBits.CountSetBits` | tsrkit_pvm/cpvm/instructions/tables/ii_reg.pyx:16-22 | clearing the lowest bit until none is left counts the set bits |
| `CyBits.CountLeadingZeros` | tsrkit_pvm/cpvm/instructions/tables/ii_reg.pyx:24-36 | the mask moving down counts the zeros above the highest set bit |
| `CyBits.CountTrailingZeros` | tsrkit_pvm/cpvm/instructions/tables/ii_reg.pyx:38-48 | shifting down counts the zeros below the lowest set bit |
| `CyBits.ReverseWord` | tsrkit_pvm/cpvm/instructions/tables/ii_reg.pyx:135-151 | eight masked and shifted bytes or-ed together are the interpreter's byte reversal |
| `CyBits.CChiIsChi` | tsrkit_pvm/cpvm/cy_utils.pyx:73-79 | sign extension by or-ing the inverted mask is the multiplying form, on values that fit |
| `CyBits.CZIsSigned` | tsrkit_pvm/cpvm/cy_utils.pyx:83-89 | exclusive or with the sign bit and subtraction is the signed reading, on values that fit |
| `CyBits.CZInvIsZInv` | tsrkit_pvm/cpvm/cy_utils.pyx:93-96 | masking is the interpreter's `z_inv` on every 64-bit signed value |

## Left out

- AddressIndex.RecompilerProgram.Assemble: takes each instruction's assembled size as a parameter, because the byte encodings of the assembler package are not part of this model.
- JumpInd.JumpIndLands: assumes that machine addresses fit 64 bits and the table has fewer than 2^32 entries, the width of the compared immediate. The displacement of the final jump is an unbounded integer in the model; the instruction has 32 signed bits, so for 2^28 entries and more, whose table takes 2^31 bytes, the sequence proved correct cannot be assembled.
- Metering.CheckRuns: takes the context block as mapped and r15 as at least 125; the operand of the memory subtraction is 32 bits wide, as its immediate is, though it is declared as 64 bits, because the reported gas is corrected by 2^32 on that ground.
- CompiledCode.MeteredCodeIsSteps: covers stretches of the three-register instructions `CodeGen.CompiledComputes` names; the signal handler that turns the refused jump into an exit is not part of this model.
- BlockInterpreter.Execute: leaves out logging.
- Codecs.EncodeCode: asks for a buffer with room, which the callers allocate; what the integer types do with values that do not fit is not part of this model.
- Naturals.NatEncode: the variable-length coding belongs to a types package that is not part of the repository; it is taken from the Gray Paper's serialisation appendix.
- Compiled forms of `mul_32`, the upper products 213 and 214, `set_lt_u` and the divisions: their handling of destinations or divisors does not cover every register.
- Compiled loads, stores, branches, host calls and `load_imm_jump_ind`: they depend on memory protection and signal handling.
- `mmap`, `mprotect`, signal handlers, seccomp and running native code: operating-system behaviour.
- Flags of x86 instructions other than `cmp`, `test` and the memory subtraction of the gas check: no emitted sequence in the model reads them, and reading an unknown flag is `Stuck`.
- Equality of the three engines as wholes: they differ by design at self-jumps, `sbrk`, fault accounting and the skip of the last instruction.
- `from_pc` of the C and compiled memories, and the recompiler's own basic-block list: repetitions or unused.
- Python's page lists are sequences of page numbers; `alter_accessibility` is modelled on the range they enumerate, not on the list object.
- `Program.decode_from`'s count of bytes read.
- JSON vectors, benchmarks, build scripts and debugging output.
- The reversed order of `b` and `b_inv`, for which there is no caller, and the C engine's own bit lists, which hold the same bits.

# A verified model of the simulavr core

simulavr simulates Atmel AVR microcontrollers. This project models the part of it that executes
programs: the instruction semantics and flag formulas, the step machine with its clock, callbacks,
interrupts and breakpoints, the linked list under them, the stack and the program memory, three timed
peripherals, and the memory and packet codec of the debugger server. Each part is proved to do what it
is for, for all inputs and for whole runs; where the code does so only under a condition, that condition
is proved exact.

What the simulator computes is written as functions on values; what its code does in place is written
as classes and methods with the simulator's own fields and loops, and each method is proved to have the
effect its function describes. The main results are about the functions: over operands of any length,
over every run of the modelled machine, over every layout of a program in flash. So that a function and
its method cannot be wrong together, each is also pinned by statements that do not use it: opcodes,
register addresses, operation codes, packets and flags as the numbers and characters the source has.

An error that ends the simulator (`avr_error`) is a failure result, or a precondition where the caller
can see it coming. I/O, signals and the display are parameters or absent. Device tables are parameters:
flash size, bytes in the program counter, and the table of memory cells with their masks.

Files, in the order in which they build on each other:

| file | contents |
|---|---|
| `Wrappers`, `Bytes`, `Bitwise` | optional values; little-endian integers; bitwise AND on integers |
| `Alu`, `StatusByte`, `MultiByte`, `Multiply` | the flag formulas; the status register's byte; chains of ADD/ADC, SUB/SBC, CP/CPC; multiplication by rows |
| `Memory`, `ProgramCounter`, `Instructions` | memory cells and the stack; the wrap of the program counter; what instructions do |
| `Branches`, `RowProgram`, `CallStack` | programs on register operands with branches; the multiplication row; nested calls, pushes and interrupts |
| `Decoder`, `DecoderShapes`, `DecoderFields`, `DecoderInverse` | the opcode table, its operand shapes and fields, and its inverse |
| `Program`, `ProgramWords`, `FetchExecute`, `RowCode` | programs laid out in flash, skips and jumps; lengths and skips read off words; fetching and executing; the multiplication row in flash |
| `InstructionWords` | what the instruction words do when fetched, said of the words and in plain arithmetic |
| `ListSpec`, `DList`, `Clock`, `OwnCallback` | the list's specification and its heap form; the clock loop; callback lists |
| `Interrupts`, `Flash`, `Breakpoints` | pending interrupts, sleep, reset and the step; program memory; breakpoints patched into it |
| `AvrCore` | registers, cells, stack, instruction handlers, reset and vectoring, updated in place over the heap list |
| `NestedCode` | nested executions as code in flash, and the interrupt step over it |
| `Spm`, `ExtendedLoad` | self programming and reading back with ELPM |
| `Timer0`, `TimerRuns`, `TimerCore`, `Timer16` | timer 0: what it counts, its runs, its code; the 16-bit timer's counter and TEMP |
| `Eeprom`, `EepromProgram`, `Watchdog` | the EEPROM's two-step write, its programming by register addresses and values, and the watchdog's turn-off procedure |
| `Hex`, `GdbMemory`, `GdbPacket`, `GdbSession` | the debugger's digits, memory commands, packets, and whole commands on memory |
| `GdbRegisters`, `GdbRegisterSession` | the register image, and whole commands on registers |

## Model

| member | source | states |
|---|---|---|
| `Alu.FullAdder` | simulavr-0.1.2.2/src/decoder.c:259-274 | For any two bytes and carry-in, the bit formulas give every flag of the addition its integer meaning: C is the carry out, H the carry out of the low nibble, V that the signed sum does not fit, S its true sign, Z a zero result; T and I stay. |
| `Alu.FullSubtractor` | simulavr-0.1.2.2/src/decoder.c:276-313 | For any two bytes and borrow-in, the subtraction formulas give C as the borrow, H the nibble borrow, V as signed overflow, S the sign of the true difference; T and I stay. |
| `Alu.BitsAreShifts` | simulavr-0.1.2.2/src/decoder.c:259-293 | The top-bit and bit-3 tests of the formulas are the shift-and-mask tests of the code, for every byte. |
| `StatusByte.SetBitInByteIsFlagUpdate` | simulavr-0.1.2.2/src/utils.h:50-54 | Setting a bit in the register byte is updating that flag of the status register, for every status and bit. |
| `StatusByte.SetBitChangesBit` | simulavr-0.1.2.2/src/utils.h:50-54 | It sets that bit of the byte to the value and leaves the other seven. |
| `StatusByte.AddFlagsUpdateByte` | simulavr-0.1.2.2/src/decoder.c:354-394 | The flags of an addition, as a record, are what its handler leaves in the register byte after setting H, V, N, S, Z and C one by one. |
| `StatusByte.SubFlagsUpdateByte` | simulavr-0.1.2.2/src/decoder.c:2583-2628 | Likewise the flags of a subtraction or comparison, whichever way Z is decided. |
| `Alu.ByteOfSregByte` | simulavr-0.1.2.2/src/register.c:114-131 | Reading the status register as a byte and writing it back loses no flag. |
| `Alu.SregByteOfByte` | simulavr-0.1.2.2/src/register.c:114-131 | Writing a byte to the status register and reading it back gives the byte. |
| `StatusByte.SregByteIs` | simulavr-0.1.2.2/src/register.h:39-57 | The register byte is C + 2Z + 4N + 8V + 16S + 32H + 64T + 128I. |
| `MultiByte.AdcChainSums` | simulavr-0.1.2.2/src/decoder.c:354-394 | n ADC on n-byte operands with any carry-in: result plus carry-out times 256^n is the sum of the operands and the carry, S is the sign of the true signed sum, T and I stay; for every n. |
| `MultiByte.AddChainModulo` | simulavr-0.1.2.2/src/decoder.c:354-434 | ADD and n - 1 ADC compute the sum modulo 256^n, and C is set exactly when the sum does not fit. |
| `MultiByte.SbcChainSubtracts` | simulavr-0.1.2.2/src/decoder.c:2583-2628 | n SBC with any borrow-in and any Z: result minus borrow-out times 256^n is the difference, Z stays set exactly if it was and every byte is zero. |
| `MultiByte.SubChainSubtracts` | simulavr-0.1.2.2/src/decoder.c:3288-3331 | SUB and n - 1 SBC compute the difference modulo 256^n; C is set exactly when the first operand is smaller, Z exactly when the operands are equal. |
| `MultiByte.SubUndoesAdd` | simulavr-0.1.2.2/src/decoder.c:354-434 | Subtracting what was added, by the two chains, gives back the first operand, for every length and any flags. |
| `MultiByte.AddUndoesSub` | simulavr-0.1.2.2/src/decoder.c:3288-3331 | Adding what was subtracted gives back the first operand. |
| `MultiByte.CpChainCompares` | simulavr-0.1.2.2/src/decoder.c:886-972 | CP and n - 1 CPC leave C as unsigned less-than, Z as equality and S as two's complement less-than of the whole integers, and T and I as they were. |
| `Multiply.RowStepExact` | simulavr-0.1.2.2/src/decoder.c:2125-2162 | One MUL, ADD, ADC step is exact: low byte plus 256 times carry is a*b + carry, at most 65280, and the carry flag ends clear. |
| `Multiply.RowProduct` | simulavr-0.1.2.2/src/decoder.c:2125-2162 | A row of n such steps is the exact product of an n-byte integer and a byte, plus the incoming carry. |
| `Multiply.ProductExact` | simulavr-0.1.2.2/src/decoder.c:2125-2162 | Rows added up column by column are the exact product of two integers of any lengths. |
| `RowProgram.RowInRegisters` | simulavr-0.1.2.2/src/decoder.c:2125-2162 | Executed on registers, with MOV placing each byte and carry, the row leaves in its output registers what it computes on values. |
| `RowProgram.RowProgramMultiplies` | simulavr-0.1.2.2/src/decoder.c:2125-2162 | The program MUL, ADD, ADC, MOV, MOV per byte leaves in n + 1 registers exactly the n-byte operand times the factor plus the carry, and changes no register but R0, R1, the carry and the outputs. |
| `Branches.ChainInRegisters` | simulavr-0.1.2.2/src/decoder.c:354-434 | Executed on registers, a chain leaves in the destination registers and flags what the chain computes on values, unless it overwrites a later operand. |
| `Branches.ChainFrame` | simulavr-0.1.2.2/src/decoder.c:354-434 | A chain changes its destination registers, the status register, the program counter and the clock count, and nothing else. |
| `Branches.AddProgram` | simulavr-0.1.2.2/src/decoder.c:354-434 | A program of ADD and n - 1 ADC leaves the sum modulo 256^n of the operand registers and its carry, with T and I kept. |
| `Branches.SubProgram` | simulavr-0.1.2.2/src/decoder.c:3288-3331 | A program of SUB and n - 1 SBC leaves the difference modulo 256^n, its borrow, and Z for equality. |
| `Branches.FlagDecides` | simulavr-0.1.2.2/README.opcodes:64-79 | The flag each of BRLT, BRGE, BREQ, BRNE, BRLO, BRSH looks at after an n-byte comparison has the value branched on exactly when the relation the table gives holds. |
| `Branches.CompareAndBranch` | simulavr-0.1.2.2/src/decoder.c:644-712 | After CP and n - 1 CPC the branch instruction goes to its target exactly when the relation holds of the whole integers, else to the next word; registers and memory stay. |
| `Branches.InterchangedBranches` | simulavr-0.1.2.2/README.opcodes:59-79 | After CP and n - 1 CPC of rs with ds, the operands interchanged, the branch goes to its target exactly when the first operand, in ds, is greater, or less or equal, signed or unsigned, equal or not, as the table says; registers and memory stay. |
| `Branches.GreaterNeedsOr` | simulavr-0.1.2.2/README.opcodes:66 | The table's Boolean column for signed greater, Z & (N ^ V) = 0, is true of every comparison; with an OR it holds exactly for greater. |
| `Memory.ReadAfterWrite` | simulavr-0.1.2.2/src/memory.c:211-277 | For every kind of cell: what was written, cut by the write mask of its cell and the read mask of the cell read, is what every address of that byte reads as, and every other address reads as before. |
| `Memory.ResetClearsMapped` | simulavr-0.1.2.2/src/memory.c:283-296 | Resetting the device behind every cell clears registers, SREG, SP and RAMPZ exactly where they are mapped, and leaves the SRAM. |
| `Memory.CellsShow` | simulavr-0.1.2.2/src/memory.c:211-242 | An unmasked cell shows its own device: a working register by its address, the status byte, the low or the high half of SP, RAMPZ; beyond the table reads are zero. |
| `Memory.HalvesSetPointer` | simulavr-0.1.2.2/src/stack.c:328-340 | Writing l to the low and h to the high half of SP, in either order, makes it 256h + l. |
| `Memory.PointerWraps` | simulavr-0.1.2.2/src/stack.c:438-480 | Moved by up to three bytes, the stack pointer wraps at both ends of its sixteen bits. |
| `Memory.PushFromPlain` | simulavr-0.1.2.2/src/stack.c:462-480 | A push on plain cells stores the bytes lowest first at descending addresses and changes no other cell or register. |
| `Memory.PopAfterPush` | simulavr-0.1.2.2/src/stack.c:438-480 | Whatever happens in between, if the bytes pushed are still there a pop gives the value modulo 256^bytes and the stack pointer is restored. |
| `Memory.PushStores` | simulavr-0.1.2.2/src/stack.c:462-480 | On plain cells a push of up to three bytes puts value mod 256 at SP, value/256 mod 256 below it and value/65536 mod 256 below that, lowers SP by the count, and changes nothing else. |
| `Memory.LowBytesIsRemainder` | simulavr-0.1.2.2/src/stack.c:438-458 | The weighted sum of n popped bytes is the remainder modulo 256^n. |
| `ProgramCounter.AdjustIsModulo` | simulavr-0.1.2.2/src/avrcore.h:336-344 | The adjusted counter is congruent to the displaced one, and lies in flash exactly when the displaced one is in [-PC_max, 2*PC_max). |
| `ProgramCounter.AdjustUnique` | simulavr-0.1.2.2/src/avrcore.h:336-344 | Within that range it is the only flash address congruent to the displaced counter. |
| `ProgramCounter.AdjustFarBackwardFails` | simulavr-0.1.2.2/src/avrcore.h:336-344 | Any displacement of more than one flash size backwards leaves the counter negative: one addition is not enough. |
| `CallStack.ReturnAddressIff` | simulavr-0.1.2.2/src/decoder.c:2451-2497 | Returns resume at the following word for every call site and length exactly when PC_max + 1 < 256^PC_size or PC_max = 256^PC_size. |
| `CallStack.WellNested` | simulavr-0.1.2.2/src/decoder.c:2405-2521 | In every well-nested tree of CALL/RCALL/ICALL with RET, PUSH with POP and vectoring with RETI on plain stack cells: each RET resumes after its own call, each POP gets its own PUSH, RETI restores PC, SP and I, and memory outside the stack bytes used and the addresses stored to is unchanged. |
| `NestedCode.NestedCodeRuns` | simulavr-0.1.2.2/src/avrcore.c:945-972 | Where the words of a nested execution are in flash at the program counter, fetching and executing them one by one, with the interrupts where the tree has them, does exactly what the tree says. |
| `NestedCode.CallInFlashComesBack` | simulavr-0.1.2.2/src/decoder.c:2405-2521 | A call in flash with a nested body ending in RET, however interrupted, ends at the word after the call with SP restored and memory outside the stack bytes used and the addresses stored to unchanged. |
| `NestedCode.FetchesAreRun` | simulavr-0.1.2.2/src/avrcore.c:945-972 | Without interrupts that is the run of so many fetches. |
| `NestedCode.RunActs` | simulavr-0.1.2.2/src/avrcore.c:1048-1086 | A run of the interrupt step machine over code in flash, free of resets, performs the fetches and vectorings of its log. |
| `NestedCode.CallInRunComesBack` | simulavr-0.1.2.2/src/avrcore.c:1048-1086 | So does a call run by the interrupt step machine when the instructions and vectorings of its log are those of the nesting. |
| `DecoderInverse.DecodeEncode` | simulavr-0.1.2.2/src/decoder.c:3451-3868 | Every instruction is recognised from its encoding with its own operand fields. |
| `DecoderInverse.EncodeDecode` | simulavr-0.1.2.2/src/decoder.c:3451-3868 | A word that decodes is the encoding of what it decodes to: no two instructions share a word and no operand bit is lost. |
| `DecoderShapes.ShapesExclusive` | simulavr-0.1.2.2/src/decoder.c:3451-3868 | At most one of the fifteen opcode tables accepts a word, so the order in which they are tried does not matter. |
| `ProgramWords.TwoWordIff` | simulavr-0.1.2.2/src/decoder.c:320-332 | A word starts a two-word instruction exactly if masked it is 0x9000, 0x9200, 0x940e or 0x940c: LDS, STS, CALL, JMP. |
| `ProgramWords.SkipIff` | simulavr-0.1.2.2/src/decoder.c:1015-1053 | A word is a skip exactly if masked it is 0x1000, 0xfc00, 0xfe00, 0x9900 or 0x9b00: CPSE, SBRC, SBRS, SBIC, SBIS. |
| `Program.FirstWordDecodes` | simulavr-0.1.2.2/src/decoder.c:320-332 | In a program laid out anywhere in flash, the word at each instruction's address decodes to that instruction. |
| `Program.SkipLandsOnBoundary` | simulavr-0.1.2.2/src/decoder.c:1015-1053 | CPSE, SBIC, SBIS, SBRC and SBRS land on the next instruction or the one after it, never in the second word of CALL, JMP, LDS or STS. |
| `Program.RunStaysOnBoundaries` | simulavr-0.1.2.2/src/decoder.c:2701-2893 | In a program whose branches, jumps and calls have instructions of it as targets, every run that starts on an instruction boundary and stays inside the program stays on its boundaries, through skips, branches, jumps and calls, and through returns and jumps by Z that lead to an instruction. |
| `FetchExecute.DisplacementsAre` | simulavr-0.1.2.2/src/decoder.c:334-346 | The branch and relative-call displacements are the two's complement readings of their 7-bit and 12-bit fields. |
| `InstructionWords.CallGoes` | simulavr-0.1.2.2/src/decoder.c:2451-2475 | RCALL k leads to pc + k + 1, ICALL to R30 + 256*R31, CALL to its target, each wrapped into flash; whatever cells the stack lies on. |
| `InstructionWords.RcallWord` | simulavr-0.1.2.2/src/decoder.c:2451-2475 | The word 0xd000 with field k, fetched, leads k + 1 words on, k read as two's complement; on plain cells the bytes of pc + 1 are on the stack, lowest first, and nothing else changes; PC_size + 1 clocks. |
| `InstructionWords.IcallWord` | simulavr-0.1.2.2/src/decoder.c:1444-1470 | The word 0x9509 calls R30 + 256*R31 likewise. |
| `InstructionWords.CallWord` | simulavr-0.1.2.2/src/decoder.c:792-822 | The word 0x940e with high bits kh, and the word kl after it, call kh*65536 + kl, pushing pc + 2 in PC_size + 2 clocks; the simulator stops exactly where there is no second word or a two-byte counter cannot hold the target. |
| `InstructionWords.RjmpWord` | simulavr-0.1.2.2/src/decoder.c:2523-2541 | The word 0xc000 with field k leads k + 1 words on in 2 clocks and changes nothing else. |
| `InstructionWords.IjmpWord` | simulavr-0.1.2.2/src/decoder.c:1472-1492 | The word 0x9409 leads to R30 + 256*R31 in 2 clocks. |
| `InstructionWords.JmpWord` | simulavr-0.1.2.2/src/decoder.c:1555-1577 | The word 0x940c with high bits kh, and the word kl after it, lead to kh*65536 + kl in 3 clocks. |
| `InstructionWords.BrbsWord` | simulavr-0.1.2.2/src/decoder.c:679-712 | The words 0xf000 with s and k branch k + 1 words on in 2 clocks if flag s of C, Z, N, V, S, H, T, I is set, and else go to the next word in 1. |
| `InstructionWords.BrbcWord` | simulavr-0.1.2.2/src/decoder.c:644-677 | The words 0xf400 do so if it is clear. |
| `InstructionWords.RetWord` | simulavr-0.1.2.2/src/decoder.c:2477-2497 | The word 0x9508 leads to the two- or three-byte address above SP, highest byte first, and raises SP past it in PC_size + 2 clocks. |
| `InstructionWords.RetiWord` | simulavr-0.1.2.2/src/decoder.c:2499-2521 | The word 0x9518 does the same and sets I. |
| `InstructionWords.PushWord` | simulavr-0.1.2.2/src/decoder.c:2428-2449 | The words 0x920f store register d at SP, which goes down by one. |
| `InstructionWords.PopWord` | simulavr-0.1.2.2/src/decoder.c:2405-2426 | The words 0x900f load register d from above SP, which goes up by one. |
| `InstructionWords.AddWord` | simulavr-0.1.2.2/src/decoder.c:395-434 | The words 0x0c00 are executed as ADD of their registers d and r. |
| `InstructionWords.AdcWord` | simulavr-0.1.2.2/src/decoder.c:354-394 | The words 0x1c00 are executed as ADC. |
| `InstructionWords.SubWord` | simulavr-0.1.2.2/src/decoder.c:3288-3331 | The words 0x1800 are executed as SUB. |
| `InstructionWords.SbcWord` | simulavr-0.1.2.2/src/decoder.c:2583-2628 | The words 0x0800 are executed as SBC. |
| `InstructionWords.CpWord` | simulavr-0.1.2.2/src/decoder.c:886-926 | The words 0x1400 are executed as CP. |
| `InstructionWords.CpcWord` | simulavr-0.1.2.2/src/decoder.c:928-972 | The words 0x0400 are executed as CPC. |
| `InstructionWords.MulWord` | simulavr-0.1.2.2/src/decoder.c:2125-2162 | The words 0x9c00 are executed as MUL. |
| `InstructionWords.MovWord` | simulavr-0.1.2.2/src/decoder.c:2072-2093 | The words 0x2c00 are executed as MOV. |
| `InstructionWords.SumMeans` | simulavr-0.1.2.2/src/decoder.c:354-434 | ADD and ADC leave (rd + rr + c) mod 256 in rd and all six flags as statements about that sum, one word on in one clock; nothing else changes. |
| `InstructionWords.DifferenceMeans` | simulavr-0.1.2.2/src/decoder.c:2583-2628 | SUB and SBC likewise the difference; SBC sets Z only if it was set. |
| `InstructionWords.ComparisonMeans` | simulavr-0.1.2.2/src/decoder.c:886-972 | CP and CPC set the flags of the difference alone; CPC sets Z only if it was set. |
| `InstructionWords.ProductMeans` | simulavr-0.1.2.2/src/decoder.c:2125-2162 | R0 + 256*R1 is the product, Z set exactly if it is zero and C exactly if it is at least 32768; other registers and flags stay; 2 clocks. |
| `InstructionWords.FetchLeads` | simulavr-0.1.2.2/src/decoder.c:644-712 | Every fetch ends at an address to which the runs of a program may lead: the static target of a branch taken, jump or call, or the next word. |
| `FetchExecute.CodeRuns` | simulavr-0.1.2.2/src/avrcore.c:945-972 | Instruction words in flash, fetched, decoded and executed one by one, have the effects of the instructions in order. |
| `FetchExecute.AddProgramInFlash` | simulavr-0.1.2.2/src/avrcore.c:945-972 | The words of ADD and n - 1 ADC in flash, run from their address, leave the n-byte sum and carry and end after the program. |
| `FetchExecute.SubProgramInFlash` | simulavr-0.1.2.2/src/avrcore.c:945-972 | The words of SUB and n - 1 SBC in flash leave the n-byte difference, its borrow and equality. |
| `FetchExecute.CompareProgramInFlash` | simulavr-0.1.2.2/src/avrcore.c:945-972 | The words of CP, n - 1 CPC and a branch in flash, run from their address, go where the relation between the n-byte operands says. |
| `RowCode.RowInFlashMultiplies` | simulavr-0.1.2.2/src/avrcore.c:945-972 | The 5n + 1 words of the multiplication row in flash, run from their address, leave the exact product plus carry in the outputs, end after the program, and change nothing else but R0, R1 and the carry. |
| `AvrCore.Core.PcIncr` | simulavr-0.1.2.2/src/avrcore.h:374-380 | The counter is displaced and adjusted in place as the model's wrap says. |
| `AvrCore.Core.MemRead` | simulavr-0.1.2.2/src/memory.c:211-242 | The value read is that of the cell's device masked for reading, zero without a device. |
| `AvrCore.Core.MemWrite` | simulavr-0.1.2.2/src/memory.c:246-277 | The whole machine state after a write through a cell is that of the model. |
| `AvrCore.Core.StackPush` | simulavr-0.1.2.2/src/stack.c:462-480 | The loop over a private copy of the stack pointer has the effect of the modelled push on the whole state. |
| `AvrCore.Core.StackPop` | simulavr-0.1.2.2/src/stack.c:438-458 | The loop that adds up bytes from the highest down delivers the modelled value and moves only the stack pointer. |
| `AvrCore.Core.OpAdd` | simulavr-0.1.2.2/src/decoder.c:354-434 | ADD and ADC update registers, flags, counter and clocks as the model does. |
| `AvrCore.Core.OpSub` | simulavr-0.1.2.2/src/decoder.c:2583-2628 | SUB and SBC likewise; SBC keeps Z on a zero result. |
| `AvrCore.Core.OpCp` | simulavr-0.1.2.2/src/decoder.c:886-972 | CP and CPC likewise, without writing a register. |
| `AvrCore.Core.OpMul` | simulavr-0.1.2.2/src/decoder.c:2125-2162 | MUL leaves the product in R1:R0, Z for zero and C for its top bit. |
| `AvrCore.Core.OpMov` | simulavr-0.1.2.2/src/decoder.c:2072-2093 | MOV copies a register. |
| `AvrCore.Core.OpBranch` | simulavr-0.1.2.2/src/decoder.c:644-712 | BRBS and BRBC take or pass the branch as the model does. |
| `AvrCore.Core.OpCall` | simulavr-0.1.2.2/src/decoder.c:792-822 | CALL, RCALL and ICALL push the return address and go to the target of InstructionWords.CallGoes, the Z register having been read first. |
| `AvrCore.Core.OpJump` | simulavr-0.1.2.2/src/decoder.c:2523-2541 | RJMP, IJMP and JMP set counter and clocks as modelled. |
| `AvrCore.Core.OpRet` | simulavr-0.1.2.2/src/decoder.c:2477-2521 | RET and RETI pop the counter; RETI also sets I. |
| `AvrCore.Core.OpPush` | simulavr-0.1.2.2/src/decoder.c:2428-2449 | PUSH has the modelled effect on the whole state. |
| `AvrCore.Core.OpPop` | simulavr-0.1.2.2/src/decoder.c:2405-2426 | POP has the modelled effect, the register being written after the stack pointer moved. |
| `AvrCore.Core.CheckInterrupts` | simulavr-0.1.2.2/src/avrcore.c:997-1040 | On the heap list of pending interrupts: looking up the one to take, resetting or vectoring, and unlinking it have the effect on machine, queue and sleep state that Interrupts.VectoringGoes and ResetGoes spell out. |
| `AvrCore.Core.Reset` | simulavr-0.1.2.2/src/avrcore.c:1158-1174 | The reset in place empties the list and has the modelled effect. |
| `AvrCore.Core.MemReset` | simulavr-0.1.2.2/src/memory.c:283-296 | The loop over the cells resets the device behind each as modelled. |
| `AvrCore.Core.IrqRaise` | simulavr-0.1.2.2/src/avrcore.c:248-262 | Raising appends the vector to the heap list unless its address is pending. |
| `ListSpec.IterateFilters` | simulavr-0.1.2.2/src/utils.c:362-382 | Over elements whose equals stand together, so over all different ones, the iterator calls the function once per element in order, threads the state, and leaves exactly the retained ones. |
| `ListSpec.PromiseIffContiguous` | simulavr-0.1.2.2/src/utils.c:340-382 | It does so for every function it may be given exactly if equal elements stand together in the list. |
| `ListSpec.IterateDropsRetained` | simulavr-0.1.2.2/src/utils.c:340-382 | The smallest list of the other kind, [7, 8, 7]: removing the last element takes the first one, which had been retained. |
| `ListSpec.AddKeepsUnique` | simulavr-0.1.2.2/src/utils.c:164-194 | Adding with a key comparison never makes a key occur twice. |
| `ListSpec.DeleteMembers` | simulavr-0.1.2.2/src/utils.c:220-267 | In a list with unique keys deleting drops exactly the elements with the key. |
| `ListSpec.DeleteKeepsUnique` | simulavr-0.1.2.2/src/utils.c:220-267 | Deleting keeps keys unique. |
| `ListSpec.LookupFinds` | simulavr-0.1.2.2/src/utils.c:296-320 | Lookup returns an element with the key, and nothing exactly if there is none. |
| `DList.List.Add` | simulavr-0.1.2.2/src/utils.c:164-194 | On heap nodes with consistent links: the new node comes last, unless an element compares equal; the old nodes stay. |
| `DList.List.AddHead` | simulavr-0.1.2.2/src/utils.c:201-216 | The new node comes first. |
| `DList.List.Delete` | simulavr-0.1.2.2/src/utils.c:220-267 | The first element that compares equal is unlinked, at head, middle or tail, and the links stay consistent. |
| `DList.List.Lookup` | simulavr-0.1.2.2/src/utils.c:296-320 | The first element that compares equal is returned. |
| `DList.List.Iterate` | simulavr-0.1.2.2/src/utils.c:362-382 | The loop that reads the next pointer of a node just unlinked visits and removes as the sequence specification says. |
| `Interrupts.RunSafe` | simulavr-0.1.2.2/src/avrcore.c:997-1086 | In every run, with sleeping and resets, vectoring happens only with I set and clears it, and after a RETI or a vectoring only once another instruction, not RETI, has been executed. |
| `Interrupts.VectoringGoes` | simulavr-0.1.2.2/src/avrcore.c:997-1040 | Awake with I set and a head other than reset: control goes to its address plus the offset, I is clear, on plain cells the bytes of the old pc are on the stack, lowest first, the others stay pending, and nothing else changes. |
| `Interrupts.DisabledWaits` | simulavr-0.1.2.2/src/avrcore.c:1021-1036 | With I clear it changes nothing. |
| `Interrupts.ResetGoes` | simulavr-0.1.2.2/src/avrcore.c:1158-1174 | A reset at the head leads to address 0 with registers, flags, SP, RAMPZ, clocks and queue cleared and the SRAM kept. |
| `Interrupts.InstructionBetween` | simulavr-0.1.2.2/src/avrcore.c:1075-1086 | Between a RETI or a vectoring and the next vectoring an instruction other than RETI executes. |
| `Interrupts.NoneTwiceKept` | simulavr-0.1.2.2/src/avrcore.c:248-262 | In every run, with sleeping and resets, no vector address is ever pending twice. |
| `Interrupts.ServedInOrder` | simulavr-0.1.2.2/src/avrcore.c:800-826 | While awake and not reset, a vector with p pending ahead of it is served at exactly the vectoring after those p, whatever is raised meanwhile, or is still pending that much further ahead. |
| `Interrupts.PendingIsFirstWaking` | simulavr-0.1.2.2/src/avrcore.c:276-331 | Awake the head of the queue is taken; asleep the first vector that wakes from the mode, those before it staying; none exactly if none does. |
| `Interrupts.HaltsIff` | simulavr-0.1.2.2/src/avrcore.c:321-331 | The check stops the simulator exactly if it is asleep with interrupts pending none of which wakes it. |
| `Interrupts.SleepsForever` | simulavr-0.1.2.2/src/avrcore.c:1048-1086 | Taking an interrupt does not wake the machine: once asleep it executes no instruction any more, and vectors at most once, and only if I was set. |
| `Interrupts.ResetIffItsTurn` | simulavr-0.1.2.2/src/avrcore.c:973-1040 | Awake, a pending reset is carried out, whatever I is, exactly if it is at the head of the queue; then nothing is vectored to and nothing stays pending. |
| `Interrupts.ResetWaits` | simulavr-0.1.2.2/src/avrcore.c:973-1040 | A reset behind another pending interrupt is held up while I is clear. |
| `Interrupts.RaiseAllKeeps` | simulavr-0.1.2.2/src/avrcore.c:248-262 | Raising leaves every pending vector at its place in the queue. |
| `Interrupts.RaiseAllRaises` | simulavr-0.1.2.2/src/avrcore.c:808-820 | Every address raised is pending afterwards. |
| `Interrupts.RaisedInOrder` | simulavr-0.1.2.2/src/avrcore.c:248-262 | Interrupts raised with new addresses queue up behind what is pending, in the order of their raising. |
| `FlashMemory.SetWordSets` | simulavr-0.1.2.2/src/storage.c:102-115 | Storing the two bytes of a word changes that word of the flash and no other. |
| `FlashMemory.HighByteFirst` | simulavr-0.1.2.2/src/storage.h:63-79 | The bytes of a word lie high byte first. |
| `FlashMemory.Flash.Write` | simulavr-0.1.2.2/src/flash.c:85-90 | Writing a word in place changes exactly that word. |
| `FlashMemory.Flash.Read` | simulavr-0.1.2.2/src/storage.h:63-79 | Reading delivers the word, high byte first. |
| `Breakpoints.InsertKeeps` | simulavr-0.1.2.2/src/avrcore.c:839-849 | Inserting, also twice at one address, keeps the logical program; the address is listed and shows BREAK. |
| `Breakpoints.BreakOpcodeIsBreak` | simulavr-0.1.2.2/src/avrcore.c:842 | The word patched in is the one word that decodes to BREAK. |
| `Breakpoints.RemoveKeeps` | simulavr-0.1.2.2/src/avrcore.c:853-866 | Removing keeps the logical program and unlists exactly that address. |
| `Breakpoints.DisablingShows` | simulavr-0.1.2.2/src/avrcore.c:879-921 | Disabling all makes the flash the program itself and leaves the list. |
| `Breakpoints.RunKeeps` | simulavr-0.1.2.2/src/avrcore.c:839-930 | After any sequence of insert, remove, enable and disable the flash still stands for the program: unlisted words are its own, listed entries save their words, and listed words are BREAK or their own. |
| `Breakpoints.EmptyListRestores` | simulavr-0.1.2.2/src/avrcore.c:839-930 | Once the list is empty again, after any such sequence, flash is exactly as it was. |
| `Breakpoints.RemovingAllRestores` | simulavr-0.1.2.2/src/avrcore.c:853-866 | Removing every listed address, in any order, empties the list and restores flash, from any reachable mixture of enabled and disabled. |
| `Breakpoints.Core.InsertBreakpoint` | simulavr-0.1.2.2/src/avrcore.c:839-849 | The insertion into the heap list and flash has the modelled effect on both. |
| `Breakpoints.Core.RemoveBreakpoint` | simulavr-0.1.2.2/src/avrcore.c:853-866 | The removal, looking up and unlinking a node, likewise; an address that is not listed, in flash or not, is ignored. |
| `Breakpoints.Core.SetBreakpoints` | simulavr-0.1.2.2/src/avrcore.c:879-930 | The pass from node to node that enables or disables every entry, overwriting saved words in the list, likewise; no node is added or removed. |
| `Spm.AcceptedValues` | simulavr-0.1.2.2/src/spm_helper.c:117-147 | Of the values in the source's list SPMCSR accepts all but 0x09, which the BLBSET test has refused before. |
| `Spm.Code03Erases` | simulavr-0.1.2.2/src/spm_helper.c:193-205 | SPM with 0x03 in SPMCSR makes every word of the page 0xffff; other words and the buffer stay; it stops the simulator exactly where the page is not in flash. |
| `Spm.Code05Writes` | simulavr-0.1.2.2/src/spm_helper.c:206-229 | With 0x05 each word of the page becomes its AND with the two buffer bytes at its place, low byte first; other words and the buffer stay. |
| `Spm.Code01Fills` | simulavr-0.1.2.2/src/spm_helper.c:182-192 | With 0x01 R0 and R1 go to the two buffer bytes Z selects; the other bytes and flash stay. |
| `Spm.Code11Clears` | simulavr-0.1.2.2/src/spm_helper.c:168-181 | With 0x11 the buffer becomes 256 bytes of 0xff and flash stays; with any value but these four the simulator stops. |
| `Spm.PageIsWhereZPoints` | simulavr-0.1.2.2/src/spm_helper.c:193-215 | The page that erase and write work on contains the address Z points to exactly when RAMPZ is at most 1. |
| `Spm.ProgramsPage` | simulavr-0.1.2.2/src/spm_helper.c:168-230 | Erase, fills in any order that reach every word, and write leave the page with the content and all other words as they were. |
| `Spm.PageWriteIdempotent` | simulavr-0.1.2.2/src/spm_helper.c:206-229 | Writing the same page again changes nothing. |
| `Spm.WithoutEraseOnlyClears` | simulavr-0.1.2.2/src/spm_helper.c:206-229 | In any session without an erase every bit of flash that is set at the end was set at the start. |
| `Spm.OtherPagesKeep` | simulavr-0.1.2.2/src/spm_helper.c:168-230 | In any session a word whose page is neither erased nor written keeps its value. |
| `Spm.FillsLoadBuffer` | simulavr-0.1.2.2/src/spm_helper.c:182-192 | Fills change only the buffer words they address, and those to their content. |
| `Spm.SpmHelper.WriteCsr` | simulavr-0.1.2.2/src/spm_helper.c:117-147 | The register takes a value exactly when it is accepted. |
| `Spm.SpmHelper.SpmRun` | simulavr-0.1.2.2/src/spm_helper.c:168-230 | The in-place operation has the modelled effect on flash, buffer and register, and stops on the same inputs. |
| `ExtendedLoad.ElpmSteps` | simulavr-0.1.2.2/src/decoder.c:1194-1244 | ELPM Rd,Z+ delivers the byte RAMPZ:Z addresses and moves the pointer on, wrapping at 22 bits, or 16 without RAMPZ. |
| `ExtendedLoad.ElpmIs` | simulavr-0.1.2.2/src/decoder.c:1156-1244 | With RAMPZ mapped, ELPM loads byte z of flash, z = R30 + 256*R31 + 65536*(RAMPZ mod 64), low byte of a word at the even address, and with the increment leaves z + 1 modulo 2^22 in these registers; no other register, flag or memory changes; 3 clocks. |
| `ExtendedLoad.ReadsConsecutive` | simulavr-0.1.2.2/src/decoder.c:1194-1244 | n such loads deliver n consecutive bytes of flash. |
| `ExtendedLoad.ProgrammedPageReadsBack` | simulavr-0.1.2.2/src/decoder.c:1194-1244 | With RAMPZ at most 1, a page erased, filled and written is read back by 256 ELPM Rd,Z+ as its content. |
| `Clock.EachCountOnce` | simulavr-0.1.2.2/src/avrcore.c:1062-1071 | Whatever the callbacks do, the clock loop runs each listed one at ck, ck + 1 and so on, every count exactly once, until it asks for its removal; one still listed at the end was run at all n counts. |
| `Clock.LoggingLoopsSame` | simulavr-0.1.2.2/src/avrcore.c:1062-1071 | Noting the calls does not change what the loop does. |
| `Clock.OneClock` | simulavr-0.1.2.2/src/callback.c:97-116 | Over distinct callbacks one clock runs each once and keeps exactly those that ask to stay. |
| `TimerCounter0.HitIsMultiple` | simulavr-0.1.2.2/src/timers.c:540-543 | For the five divisors the bitwise test on the clock count is divisibility. |
| `TimerCounter0.CountsMultiples` | simulavr-0.1.2.2/src/timers.c:524-558 | Over n clocks a running timer advances by the number of multiples of its divisor, once for each of its callbacks in the list; the overflow flag is set exactly when the count passes 255. |
| `TimerCounter0.StoppedStays` | simulavr-0.1.2.2/src/timers.c:536-537 | The first clock after a stop takes every callback of the timer from the list, and a stopped timer does not count. |
| `TimerRuns.RunKeeps` | simulavr-0.1.2.2/src/timers.c:447-502 | At the end of every step of every run in which register writes come from instructions, the clock list holds one timer callback if the timer runs and none if not. |
| `TimerRuns.CountsEachClockOnce` | simulavr-0.1.2.2/src/timers.c:524-558 | Within one stretch of the clock loop TCNT advances by ceil((c+n)/d) - ceil(c/d) modulo 256 and TOV0 is set exactly if it was or the sum reached 256. |
| `TimerRuns.SelectedCounts` | simulavr-0.1.2.2/src/timers.c:447-502 | Written with clock selection 1 to 5, n clocks from ck on advance TCNT by ceil((ck+n)/d) - ceil(ck/d) for d = 1, 8, 64, 256, 1024; with 0 it stands; 6 and 7 stop the simulator. |
| `TimerRuns.WrittenCounts` | simulavr-0.1.2.2/src/timers.c:524-558 | A value written to a running TCNT is counted on from, and TOV0 is cleared by serving its interrupt. |
| `TimerRuns.RunCountsEachClockOnce` | simulavr-0.1.2.2/src/timers.c:524-558 | Over any number of steps without writes, n clocks in all, TCNT advances by ceil((c+n)/d) - ceil(c/d) modulo 256 whatever the timer interrupt does to TOV0 between steps; unless it is served TOV0 is set at the end exactly if it was or the sum reached 256. |
| `TimerRuns.TwoCallbacksIff` | simulavr-0.1.2.2/src/timers.c:462-501 | Over arbitrary writes and clocks two timer callbacks are ever listed exactly if among the events a start follows a stop of the running timer with no clock between. |
| `TimerRuns.StopStartCountsTwice` | simulavr-0.1.2.2/src/timers.c:462-501 | A running timer stopped and started with no clock between counts the next clock twice. |
| `TimerCore.Machine.WriteTccr` | simulavr-0.1.2.2/src/timers.c:447-502 | The register write in place has the modelled effect and stops for the external sources. |
| `TimerCore.Machine.ClkIncrCb` | simulavr-0.1.2.2/src/timers.c:524-558 | The callback in place counts, flags overflow and asks for removal as the model does. |
| `TimerCore.Machine.ClkCbExec` | simulavr-0.1.2.2/src/callback.c:103-116 | The pass from node to node of the heap list, running and unlinking callbacks, has the effect of the specified iteration. |
| `TimerCore.Machine.PropagateClocks` | simulavr-0.1.2.2/src/avrcore.c:1062-1071 | The loop terminates, passes the clocks of the instruction and leaves none. |
| `Timer16.CountsAndCompares` | simulavr-0.1.2.2/src/timers.c:772-818 | Over n clocks a running 16-bit timer advances by the multiples of its divisor modulo 65536; TOV1 is set exactly if it was or the count passed 65535, OCF1A and OCF1B exactly if they were or the count met their compare value on the way. |
| `Timer16.MeetsIsACount` | simulavr-0.1.2.2/src/timers.c:803-816 | Meeting a compare value means that one of the counts on the way is that value. |
| `Timer16.CountsExactly` | simulavr-0.1.2.2/src/timers.c:772-818 | Count by count: TCNT, TOV1, and OCF1A and OCF1B set exactly if they were or one of the counts was OCR1A, or OCR1B; nothing else changes. |
| `Timer16.ReadIsSnapshot` | simulavr-0.1.2.2/src/timers.c:672-685 | Reading the low byte and, any number of clocks later, the high byte gives the count at the first read. |
| `Timer16.WriteIsAtomic` | simulavr-0.1.2.2/src/timers.c:711-725 | Writing the high byte and, any number of clocks later, the low byte sets the count at the second write. |
| `Timer16.Device16.ReadTcntL` | simulavr-0.1.2.2/src/timers.c:672-680 | The read in place delivers the low byte and keeps the high byte in TEMP. |
| `Timer16.Device16.WriteTcntL` | simulavr-0.1.2.2/src/timers.c:711-719 | The write in place sets the whole counter from TEMP and the value. |
| `Timer16.Device16.ClkIncrCb` | simulavr-0.1.2.2/src/timers.c:772-818 | The callback in place counts and sets flags as the model does. |
| `EepromRegisters.RunLinked` | simulavr-0.1.2.2/src/eeprom.c:192-312 | In every run EEWE and EEMWE are set exactly when their callbacks are installed, each listed once. |
| `EepromRegisters.MemoryChangesOnlyByArmedWrites` | simulavr-0.1.2.2/src/eeprom.c:142-295 | In every run memory changes only at the tick completing a write, by one byte, with the address and data of the event that started it 2500 ticks before with EEMWE set. |
| `EepromProgram.AddressWritten` | simulavr-0.1.2.2/src/eeprom.c:161-173 | With no write in progress l to 0x3e and h to 0x3f, in either order, make the address 256h + l and change nothing else. |
| `EepromProgram.DataWritten` | simulavr-0.1.2.2/src/eeprom.c:165-167 | 0x3d takes the data, and nothing else changes. |
| `EepromProgram.ByteRead` | simulavr-0.1.2.2/src/eeprom.c:199-208 | 1 in 0x3c brings the byte addressed into EEDR, and nothing else changes. |
| `EepromProgram.ControlValues` | simulavr-0.1.2.2/src/eeprom.c:144-247 | 6 in 0x3c is taken as 2; 0, 3, 5 and 7 stop the simulator, as does any write during a write. |
| `EepromProgram.ProcedureStores` | simulavr-0.1.2.2/src/eeprom.c:142-312 | Address, data, 4 and then 2 in 0x3c store exactly that byte at exactly 256h + l, and do so exactly if at most four clocks pass between 4 and 2 and more than 2500 asynchronous ticks after; whatever else happens meanwhile. |
| `EepromProgram.ReadsBack` | simulavr-0.1.2.2/src/eeprom.c:142-312 | Once stored, addressing it again and 1 in 0x3c bring that byte into EEDR. |
| `EepromRegisters.MasterFallsOnFifthClock` | simulavr-0.1.2.2/src/eeprom.c:225-312 | EEMWE stays through the fourth clock after its last set and falls on the fifth. |
| `EepromRegisters.MasterLasts` | simulavr-0.1.2.2/src/eeprom.c:298-312 | Once set and not set again EEMWE lasts for as many clocks as its count. |
| `EepromRegisters.Device.RegWrite` | simulavr-0.1.2.2/src/eeprom.c:142-176 | The register write in place has the modelled effect, and stops during a write and on unknown values and addresses. |
| `EepromRegisters.Device.WrOpCb` | simulavr-0.1.2.2/src/eeprom.c:261-292 | The write callback in place counts down, then stores the byte and clears EEWE. |
| `EepromRegisters.Device.MweClrCb` | simulavr-0.1.2.2/src/eeprom.c:298-312 | The master enable's callback in place counts down, then clears the bit. |
| `Watchdog.WriteClearsIff` | simulavr-0.1.2.2/src/register.c:454-486 | With both bits available a write clears a set WDE exactly if it has WDE clear and WDTOE is set. |
| `Watchdog.RunLinked` | simulavr-0.1.2.2/src/register.c:454-568 | In every run the turn-off callback is listed once exactly when noted, its count is at most 4, and WDTOE is set only while it is. |
| `Watchdog.TimerFollowsEnable` | simulavr-0.1.2.2/src/register.c:488-500 | In every run the callback that times the watchdog is noted exactly while WDE is set. |
| `Watchdog.ClearedOnlyInWindow` | simulavr-0.1.2.2/src/register.c:454-568 | In every run WDE once set is cleared only by a write at most four clocks after the latest write that set WDTOE. |
| `Watchdog.TurnOffProcedure` | simulavr-0.1.2.2/src/register.c:454-568 | Setting WDTOE and WDE, n clocks, and a write with WDE clear turn the watchdog off exactly if n is at most 4. |
| `Watchdog.TurnOffValues` | simulavr-0.1.2.2/src/register.c:454-486 | With the values written: 0x18, n clocks, 0 leave bit 0x08 clear exactly if n is at most 4, and 0 alone leaves it set. |
| `Watchdog.Wdtcr.WriteReg` | simulavr-0.1.2.2/src/register.c:454-500 | The register write in place has the modelled effect on register, count and callbacks. |
| `Watchdog.Wdtcr.ToeClrCb` | simulavr-0.1.2.2/src/register.c:548-568 | The turn-off callback in place has the modelled effect. |
| `Hex.EncodeDecode` | simulavr-0.1.2.2/src/gdbserver.c:161-177 | Digits decoded and encoded again are the same digits in lower case. |
| `Hex.DecodeEncode` | simulavr-0.1.2.2/src/gdbserver.c:161-177 | Bytes encoded and decoded again are the same bytes. |
| `Hex.NumberOfNumeral` | simulavr-0.1.2.2/src/gdbserver.c:563-585 | A number written in hexadecimal reads back as itself. |
| `Hex.DigitTable` | simulavr-0.1.2.2/src/gdbserver.c:111-177 | The digits, by value and in both cases, and no other character. |
| `Hex.ByteAsDigits` | simulavr-0.1.2.2/src/gdbserver.c:161-177 | A byte is written as two digits, high one first, and read so. |
| `GdbMemory.ParseWritePacket` | simulavr-0.1.2.2/src/gdbserver.c:563-585 | The address and length of a write packet, and where its payload starts, are parsed as they were written. |
| `GdbMemory.WriteFlash` | simulavr-0.1.2.2/src/gdbserver.c:735-774 | For odd and even starts and ends the command is a slice update of the byte view of flash: the addressed bytes become the payload, all others stay. |
| `GdbMemory.ReadFlash` | simulavr-0.1.2.2/src/gdbserver.c:616-668 | For the ranges the command covers, the reply is the digits of exactly the addressed bytes of that view. |
| `GdbMemory.WriteIsSliceUpdate` | simulavr-0.1.2.2/src/gdbserver.c:735-774 | Byte by byte: inside the range the payload's byte, outside the old one. |
| `GdbSession.ReadReplySentIff` | simulavr-0.1.2.2/src/gdbserver.c:262-276 | The digits of n bytes are sent exactly if n is at most 197. |
| `GdbSession.ReadAnsweredIff` | simulavr-0.1.2.2/src/gdbserver.c:587-692 | A received read command for bytes of flash is answered, with the packet of their digits and flash unchanged, exactly if it asks for at most 197 bytes; else the simulator stops. |
| `GdbSession.OneTooMany` | simulavr-0.1.2.2/src/gdbserver.c:262-276 | Asked for 198 bytes the simulator stops. |
| `GdbSession.WriteAnsweredIff` | simulavr-0.1.2.2/src/gdbserver.c:695-810 | A write command for bytes of flash is parsed to its parts and obeyed, the addressed bytes becoming the payload and all others staying, and answered $OK#9a, exactly if its packet has at most 400 characters; a longer one is cut and the simulator stops. |
| `GdbSession.WriteThenReadIff` | simulavr-0.1.2.2/src/gdbserver.c:587-810 | A write command and then a read command of the same range, each through the packet layer, return the payload's digits, in lower case, exactly if the write packet has at most 400 characters. |
| `GdbSession.CutWriteStops` | simulavr-0.1.2.2/src/gdbserver.c:695-733 | A write command cut anywhere before its end stops the simulator. |
| `GdbSession.ReadsTwo` | simulavr-0.1.2.2/src/gdbserver.c:587-692 | m4,2#ff is answered with the digits of bytes 4 and 5 of the view, which stays. |
| `GdbSession.WritesOne` | simulavr-0.1.2.2/src/gdbserver.c:695-810 | M1a,1:fE#21 sets byte 0x1a of the view to 0xfe and is answered $OK#9a. |
| `GdbSession.Serve` | simulavr-0.1.2.2/src/gdbserver.c:1206-1260 | Receiving a packet, obeying it on flash and sending the reply have the modelled effect on flash, reply and stream, and stop on the same inputs. |
| `GdbPacket.RoundTrip` | simulavr-0.1.2.2/src/gdbserver.c:237-289 | The reader recovers what the sender emits for a reply, and leaves the rest of the stream, exactly when the reply has at most 395 characters and neither # nor NUL among them. |
| `GdbPacket.ReceivedIff` | simulavr-0.1.2.2/src/gdbserver.c:1206-1250 | A packet whose payload has no # is received as that payload, and what follows left unread, exactly if the payload has at most 400 characters. |
| `GdbPacket.SentIff` | simulavr-0.1.2.2/src/gdbserver.c:262-276 | A reply without NUL is sent exactly if it has at most 395 characters; for a longer one the simulator stops. |
| `GdbPacket.AcceptedIsChecked` | simulavr-0.1.2.2/src/gdbserver.c:1223-1250 | Whatever is accepted has no #, fits the buffer, carries the checksum of its payload, and ends at a # unless it fills the buffer. |
| `GdbPacket.ChecksumAdds` | simulavr-0.1.2.2/src/gdbserver.c:262-276 | The checksum of two texts together is the sum of theirs. |
| `GdbPacket.ChecksumIsSum` | simulavr-0.1.2.2/src/gdbserver.c:1223-1235 | The checksum of a text is its characters added up, from the first on. |
| `GdbPacket.AcceptedIff` | simulavr-0.1.2.2/src/gdbserver.c:1223-1250 | A payload of up to 400 characters without # is accepted exactly if the two characters after its # are the digits of the sum of its characters modulo 256. |
| `GdbPacket.SentCarriesSum` | simulavr-0.1.2.2/src/gdbserver.c:262-289 | A reply is sent between $ and # with the two digits of that sum. |
| `GdbPacket.ShortPackets` | simulavr-0.1.2.2/src/gdbserver.c:237-289 | OK is sent as $OK#9a; g#67 is accepted and g#68 is not. |
| `GdbPacket.FullBufferNeedsNoTerminator` | simulavr-0.1.2.2/src/gdbserver.c:1223-1250 | A payload of 400 characters is accepted with any character where its # belongs. |
| `GdbPacket.SendReply` | simulavr-0.1.2.2/src/gdbserver.c:237-289 | The buffer-filling loop emits the modelled packet. |
| `GdbPacket.ReadPacket` | simulavr-0.1.2.2/src/gdbserver.c:1223-1250 | The reading loop accepts what the model accepts. |
| `GdbRegisters.ImageRoundTrip` | simulavr-0.1.2.2/src/gdbserver.c:297-410 | Writing one machine's register image to another makes registers, SREG, PC and the bytes of SP that the device maps equal, with or without SPH, and changes nothing else; writing back its own image changes nothing. |
| `GdbRegisters.ImageLayout` | simulavr-0.1.2.2/src/gdbserver.c:289-330 | The image holds the 32 registers, the status byte, and the low and high byte of SP from addresses 0x5d and 0x5e, |
| `GdbRegisters.ImageCounter` | simulavr-0.1.2.2/src/gdbserver.c:331-350 | and in its last four bytes, lowest first, twice the program counter. |
| `GdbRegisters.ReadRegisters` | simulavr-0.1.2.2/src/gdbserver.c:297-353 | The reply is the digits of the image. |
| `GdbRegisters.WriteRegisters` | simulavr-0.1.2.2/src/gdbserver.c:361-410 | The packet's bytes are loaded in the modelled order. |
| `GdbRegisterSession.ReadAnswered` | simulavr-0.1.2.2/src/gdbserver.c:297-353 | A received g command is always answered, and what is sent is received as the digits of the image. |
| `GdbRegisterSession.WriteAnsweredIff` | simulavr-0.1.2.2/src/gdbserver.c:361-410 | A received G command is obeyed, loading the bytes of its digits, and answered $OK#9a, exactly if it begins with the 78 digits of an image; else the simulator stops. |
| `GdbRegisterSession.RegistersRoundTrip` | simulavr-0.1.2.2/src/gdbserver.c:297-410 | What g sends for one machine, received and given to another with G, each through the packet layer, makes its registers, SREG, PC and mapped bytes of SP equal and changes nothing else. |
| `GdbRegisterSession.Serve` | simulavr-0.1.2.2/src/gdbserver.c:1113-1137 | Receiving a packet, obeying it on the registers and sending the reply are as modelled, and stop on the same inputs. |
| `Bitwise.AndBit` | simulavr-0.1.2.2/src/spm_helper.c:219-224 | Bitwise AND on integers is conjunction digit by digit. |
| `Bitwise.AndLowMask` | simulavr-0.1.2.2/src/timers.c:540-543 | A mask of k ones keeps the remainder modulo 2^k. |

Where the code and its own description differ, the model follows the code: the pending interrupts are
described as sorted by priority (`avrcore.h:74-75`) but are served first come, first served;
`mem_push` and `mem_pop` refuse four bytes although their comment allows them; the program counter is
adjusted by one flash size only; SPMCSR refuses 0x09 although its list of values has it; the branch
table of `README.opcodes` has AND where signed "greater" needs OR; a pending reset is said never to be
blocked by the I flag (`avrcore.c:983-985`, `avrcore.c:1015-1017`) but waits behind other pending
interrupts that are.

`FlashMemory`, `Spm` and the debugger modules take flash sizes in whole words, as all devices have.
`Interrupts.Step` takes any effect of an instruction other than RETI as input, so its theorems hold
whatever the instructions and peripherals do; `CallStack` and `FetchExecute` say what the instructions
do, and `NestedCode` ties the three together.

## Left out

- Instructions other than ADD, ADC, SUB, SBC, CP, CPC, MUL, MOV, BRBS, BRBC, RJMP, JMP, IJMP, CALL, RCALL, ICALL, RET, RETI, PUSH, POP, ELPM, SPM (as an operation on R0, R1 and Z) and the skips (as control flow): decoded, but their effects on one register are a finite table each.
- The effects of SLEEP and WDR, which end in a name lookup that always stops the simulator, so that the sleeping machine of `Interrupts` is what the step does in a state its own instruction does not reach; operand-less ELPM, which passes no register; ESPM, EICALL and EIJMP.
- The reset of the peripherals; reset clears the devices of `Memory`.
- The hardware stack of the smallest devices: its push does not shift the older entries, so it is last-in first-out for one entry only; the stack theorems are about the stack in memory.
- The control registers and callback of the 16-bit timers, which repeat timer 0; their interrupt, compare and associated devices are given; the timer interrupt device, ports, SPI, ADC, UART and USB, which depend on external input.
- The watchdog's own timeout, which compares wall-clock times, and its asynchronous callback list.
- File loading, sockets, signals, blocking modes, display and core dumps, `OsEID.c`.
- Debugger access to SRAM and EEPROM addresses, single registers, queries and continue; a debugger that sends more than eight digits in a number.
- Memory beyond the cell table, which the code reads out of bounds, counts as having no device.
- Reference counts and freeing: heap nodes live on, so the iterator may read the next pointer of a node it has unlinked.
- The 64-bit clock count does not wrap in the model, and heap allocation does not fail.
- ListSpec.Iterate: the callback is a function of the element and a state it threads; it does not change the list it is run over.
- Multiply.ProductExact: rows are added up on values; the program on registers and in flash is one row, `RowProgram.RowProgramMultiplies` and `RowCode.RowInFlashMultiplies`.
- CallStack.WellNested: takes trees whose stack bytes are plain memory cells and whose stores avoid the bytes on the stack, which is where the law can hold.
- ProgramCounter.AdjustIsModulo: the wrap is modular only for a displaced counter less than one flash size outside flash; the statement says so exactly.
- TimerRuns.RunKeeps: register writes come from instructions that take at least one clock, at most one write to the timer each; `TimerRuns.TwoCallbacksIff` says exactly what happens without that.
- EepromRegisters.MemoryChangesOnlyByArmedWrites: reset during a write is outside, since the old callback still fires after it.
- ExtendedLoad.ProgrammedPageReadsBack: above 128 KB the page written is another one, as `Spm.PageIsWhereZPoints` states exactly.
- GdbMemory.ReadFlash: reading no bytes at an odd address overruns a one-byte buffer in the source; the command counts as stopping the simulator there.
- Interrupts.HaltsIff: the null pointer the look-up gives there is followed by the source; that counts as stopping the simulator.
- Program.RunStaysOnBoundaries: the program does not end in a skip; where returns and jumps by Z lead is data, and taken to be an instruction of the program.
- InstructionWords.RetWord: spelled out for program counters of two bytes, which all devices have, and of three; `CallStack.WellNested` is about every size.

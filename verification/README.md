# AltairX virtual machine: a verified model

AltairX is a VLIW processor with a virtual machine in two generations. This project models both in Dafny and proves what they compute.

**The second VM** (`VM/altairx_v2`) is a two-slot interpreter over a banked memory map, with a loader that builds a guest image.

- `Bits`, `Opcode`, `Results`: 32- and 64-bit words as naturals with explicit wrap-around, the bitwise operators bit by bit, instruction fields, and the ways a step can fail.
- `Memory`, `MemoryUnit`: the memory map and the byte copies behind it, as a specification and as the object that owns the buffers.
- `Machine`, `Instructions`: the core's state as a set of named locations, and every instruction as the assignments it makes from the state before it.
- `CoreUnit`, `VirtualMachine`: the core and machine objects, updated in place branch by branch as the program does. Every method is proved to leave exactly the state its effect describes.
- `Encoding`, `Semantics`, `Arithmetic`, `Addressing`, `Branching`: instruction words as sums of their fields, and what every supported instruction computes in terms of integers and bits, independent of how the effects are written.
- `Footprint`, `Conflicts`, `ZeroRegister`, `Calls`, `Width`, `Immediates`, `SignExtend`, `Flags`, `LoadStore`: theorems about instructions, bundles and runs.
- `Loader`, `Sections`, `Arguments`, `Boot`: the hosted loader, from ELF sections to the first instruction of `main`.

**The first VM** (`VM/altairx`) contributes four self-contained pieces: the pipeline scoreboard (`Scoreboard`), the cache counters (`CacheModel`), the four-word pre-decoder (`PreDecoder`) and the decimal printer (`DecimalPrinter`). `HalfFloat` models the half/float conversions of the second VM.

How to read the model:

- A failing assertion of the program, a step C++ leaves undefined (a shift by 64 or more, division by zero, a copy running past its bank) and a loader panic all become an `Err`. What the state holds after an `Err` is not specified, because the program ends there.
- Floating-point registers hold their 64-bit patterns. Host words are little-endian.
- ELF files are plain lists of sections and symbols.
- Each effect in `Instructions` and each stage in `Loader` is a function. The methods are proved against these functions, and the theorems are about them.

## Model

| member | source | states |
|---|---|---|
| Memory.BankByRange | VM/altairx_v2/src/memory.cpp:18-51 | The bank is decided by the range the low 32 address bits fall in: the highest set bit of bits 31 to 27 wins, SPM without any |
| Memory.MapsInside | VM/altairx_v2/src/memory.cpp:13-55 | For any positive bank sizes every 64-bit address resolves inside its bank |
| Memory.SameByteIff | VM/altairx_v2/src/memory.cpp:18-55 | With power-of-two sizes two addresses name the same byte exactly when they select one bank and are congruent modulo its size |
| Memory.CongruenceNeedsPowerOfTwo | VM/altairx_v2/src/memory.cpp:5-36 | For a configurable bank of at most 2^63 bytes, that law holds if and only if the size is a power of two |
| Memory.FromToBytes | VM/altairx_v2/include/memory.hpp:31-39 | Reading back n stored little-endian bytes gives the value modulo 2^(8n) |
| Memory.LittleEndian | VM/altairx_v2/include/memory.hpp:31-39 | Byte i of a stored word is its i-th lowest |
| Memory.FixedBanks | VM/altairx_v2/src/memory.cpp:36-51 | Scratchpad, I/O and ROM start over every 16 KiB, 512 KiB and 16 MiB |
| MemoryUnit.AxMemory.constructor | VM/altairx_v2/src/memory.cpp:5-16 | Buffers have the requested sizes, are zero and distinct, and the masks are size minus one |
| MemoryUnit.AxMemory.Map | VM/altairx_v2/src/memory.cpp:18-55 | The mapped buffer and offset are those of the specification |
| MemoryUnit.AxMemory.Store | VM/altairx_v2/include/memory.hpp:31-34 | The copied bytes replace exactly their range of one bank; a copy past the bank end is refused and changes nothing |
| MemoryUnit.AxMemory.Load | VM/altairx_v2/include/memory.hpp:36-39 | The loaded bytes are the mapped range, or an error when it leaves the bank |
| MemoryUnit.CopyIn | VM/altairx_v2/include/memory.hpp:31-34 | memcpy: the target range holds the source bytes and the rest is unchanged |
| LoadStore.ReadOwnWrite | VM/altairx_v2/include/memory.hpp:31-39 | A load of a just-stored range gives back the stored bytes |
| LoadStore.ReadOtherWrite | VM/altairx_v2/include/memory.hpp:31-39 | A store does not affect a load whose mapped bytes do not overlap |
| LoadStore.LoadUndoesStore | VM/altairx_v2/src/core.cpp:333-382 | Any store form, any run of units leaving those bytes alone, then any load form of the same size through any address of the same place: the low bytes come back and the destination keeps its upper bytes |
| LoadStore.FetchAgreesWithLoad | VM/altairx_v2/src/altairx.cpp:295-301 | For power-of-two WRAM of any size and any in-range pc, the instruction word is the 32-bit load at WRAM_BEGIN + 4 * pc for all contents if and only if bit 31 of that address is set |
| Machine.CommitTwice | VM/altairx_v2/src/core.cpp:42-62 | Assignments made one after the other equal assignments made at once, the later winning |
| Machine.SameState | VM/altairx_v2/include/core.hpp:35-56 | Two states agreeing on every register and every memory byte are equal |
| Encoding.WordLayout | VM/altairx_v2/include/opcode.hpp:117-136 | A word is its packaging bit, its 7-bit operation and 24 bits of operands |
| Encoding.UnitLayout | VM/altairx_v2/include/opcode.hpp:26-35 | The unit is the upper three bits of the operation |
| Encoding.RegisterLayout | VM/altairx_v2/include/opcode.hpp:37-75 | In the two-operand form the operands are size, form bit, shift and the registers C, B and A, from the lowest bit up |
| Encoding.ImmediateLayout | VM/altairx_v2/include/opcode.hpp:77-95 | The same for the 9-bit immediate, the bit-field operands and the 18-bit moves |
| Encoding.AccessLayout | VM/altairx_v2/include/opcode.hpp:102-115 | The same for the 10-bit and 16-bit offsets of loads and stores |
| Encoding.SmallLayout | VM/altairx_v2/include/opcode.hpp:42-50 | SEXT's source width and the MDU register lie in bits 11 and 12, the index of the other branches in bits 8 to 11 |
| CoreUnit.AxCore.AluSrc2Value | VM/altairx_v2/src/core.cpp:125-140 | The second operand: shifted register, or sign-extended 9-bit immediate combined with imm24 |
| CoreUnit.AxCore.ExecuteAluA | VM/altairx_v2/src/core.cpp:165-227 | In-place moves, bit-fields, SEXT and CMP leave exactly the state of their effect |
| CoreUnit.AxCore.CompareFlags | VM/altairx_v2/src/core.cpp:195-215 | After CMP bit 0 of fr says that the operands are equal, bit 2 is the sign of their wrapped difference, and each of the other 30 bits is what it was |
| Flags.CompareBits | VM/altairx_v2/src/core.cpp:195-215 | The same of the value CMP assigns, bit by bit, for every flag register and operands |
| Flags.CompareTested | VM/altairx_v2/src/core.cpp:195-215 | Tested as the branches do: Z is equality, and N is signed less-than if and only if the signed difference fits 64 bits |
| CoreUnit.AxCore.ExecuteAluB | VM/altairx_v2/src/core.cpp:229-260 | In-place arithmetic, logic and shifts, cut to the operand size, leave exactly the state of their effect, which Arithmetic states in numbers |
| CoreUnit.AxCore.ExecuteAluTests | VM/altairx_v2/src/core.cpp:262-297 | In-place comparisons and conditional moves leave exactly the state of their effect |
| CoreUnit.AxCore.ExecuteMdu | VM/altairx_v2/src/core.cpp:300-331 | Division (unsigned in both forms), products and moves through the MDU registers; division by zero is an error |
| CoreUnit.AxCore.DoLoad | VM/altairx_v2/src/core.cpp:37-40 | A load replaces the low bytes of its register |
| CoreUnit.AxCore.DoStore | VM/altairx_v2/src/core.cpp:32-35 | A store writes the low bytes of its register to the mapped range |
| CoreUnit.AxCore.ExecuteLsu | VM/altairx_v2/src/core.cpp:333-382 | All twelve load and store forms leave exactly the state of their effect, which Addressing states in numbers; other operations do nothing |
| CoreUnit.AxCore.ExecuteBranch | VM/altairx_v2/src/core.cpp:388-450 | Each conditional branch moves pc exactly when its flag test says so |
| CoreUnit.AxCore.ExecuteBru | VM/altairx_v2/src/core.cpp:384-479 | Branches, LOOP, JUMP, CALL and CALLR update pc, lr and lc as their effect says, which Branching states in numbers |
| CoreUnit.AxCore.ExecuteBruOther | VM/altairx_v2/src/core.cpp:481-506 | Register jumps, returns and the system call; CALLBR runs into the assertion |
| CoreUnit.AxCore.ExecuteUnit | VM/altairx_v2/src/core.cpp:76-123 | r63 is reset in both files before the unit runs; unsupported issue numbers are an error |
| CoreUnit.AxCore.Execute | VM/altairx_v2/src/core.cpp:42-62 | One bundle with its MOVEIX extension, and how far pc has to move |
| VirtualMachine.AltairX.Execute | VM/altairx_v2/src/altairx.cpp:295-306 | Fetch, execute and the cc, ic and pc bookkeeping give the next state of the step function |
| Arithmetic.AddRuns | VM/altairx_v2/src/core.cpp:230-232 | ADD leaves the sum of register B and the second operand modulo 2 to the operand width, and nothing else |
| Arithmetic.SubRuns | VM/altairx_v2/src/core.cpp:234-236 | SUB leaves the difference |
| Arithmetic.AddUndoesSub | VM/altairx_v2/src/core.cpp:230-236 | Adding the same operand to the difference gives the minuend back, modulo the width |
| Arithmetic.SignedSum | VM/altairx_v2/src/core.cpp:230-232 | Read as signed numbers of n bits, the sum modulo 2^n is the sum if and only if that fits n bits |
| Arithmetic.XorRuns | VM/altairx_v2/src/core.cpp:238-240 | XOR sets exactly the bits in which the operands differ |
| Arithmetic.OrRuns | VM/altairx_v2/src/core.cpp:242-244 | OR sets exactly the bits set in either operand |
| Arithmetic.AndRuns | VM/altairx_v2/src/core.cpp:246-248 | AND sets exactly the bits set in both |
| Arithmetic.LslRuns | VM/altairx_v2/src/core.cpp:250-252 | LSL multiplies by a power of two, modulo the width |
| Arithmetic.LsrRuns | VM/altairx_v2/src/core.cpp:254-260 | ASR and LSR both divide the unsigned word by a power of two |
| Arithmetic.LongShiftFails | VM/altairx_v2/src/core.cpp:250-260 | A shift by 64 or more is an error |
| Arithmetic.TestRuns | VM/altairx_v2/src/core.cpp:262-276 | SE, SEN, SLTS and SLTU leave 1 if the full words are equal, unequal, signed less or unsigned less, and 0 if not |
| Arithmetic.SandRuns | VM/altairx_v2/src/core.cpp:278-280 | SAND keeps the bits common to the full words, whatever the size |
| Arithmetic.ConditionalMoveRuns | VM/altairx_v2/src/core.cpp:282-294 | CMOVE moves when the second operand is nonzero, CMOVEN when it is zero |
| Arithmetic.CmpRuns | VM/altairx_v2/src/core.cpp:195-215 | CMP of registers B and C: bit 0 of fr is their equality, bit 2 the sign of the wrapped difference, every other bit and register stays |
| Arithmetic.DivideRuns | VM/altairx_v2/src/core.cpp:308-315 | MDU register 0 gets the quotient q and register 1 the remainder r with q * b + r = a and r < b, cut to the size; a zero divisor is an error |
| Arithmetic.DivisionIsExact | VM/altairx_v2/src/core.cpp:308-315 | At 64 bits quotient and remainder give the dividend back |
| Arithmetic.MultiplyRuns | VM/altairx_v2/src/core.cpp:316-321 | MDU register 2 gets the product modulo 2 to the operand width |
| Arithmetic.MduMoveRuns | VM/altairx_v2/src/core.cpp:322-327 | MOVETO and MOVEFROM copy between the named MDU register and a register |
| Arithmetic.MoveixRuns | VM/altairx_v2/src/core.cpp:168-169 | MOVEIX by itself does nothing |
| Arithmetic.MoveRuns | VM/altairx_v2/src/core.cpp:179-185 | MOVEI leaves the 18-bit field plus 2^18 times the extension, MOVEN its negative counterpart |
| Arithmetic.ExtractRuns | VM/altairx_v2/src/core.cpp:171-173 | EXT leaves the field of the given width from the given bit on; widths of 31 and more are an error |
| Arithmetic.InsertRuns | VM/altairx_v2/src/core.cpp:175-177 | INS adds bits from the first immediate up to the second to the destination and keeps the destination's own |
| Arithmetic.MoveUpRuns | VM/altairx_v2/src/core.cpp:187-189 | MOVEUP puts the 18-bit field at bit 32 and the extension at bit 42, joined where they overlap |
| Arithmetic.UnknownFails | VM/altairx_v2/src/core.cpp:76-123 | Operations the units do not know, and units the second slot lacks, are errors |
| Addressing.AddressIs | VM/altairx_v2/src/core.cpp:343-380 | The address is register B plus register C times 2^shift, or register B plus the signed 34-bit immediate, or r0 plus the 40-bit offset, modulo 2^64 |
| Addressing.StoreRuns | VM/altairx_v2/src/core.cpp:346-382 | A store of 2^size bytes puts the low bytes of its register at that address, and changes nothing else |
| Addressing.LoadRuns | VM/altairx_v2/src/core.cpp:343-380 | A load puts the bytes found there in the low part of its register and keeps the upper part |
| Addressing.OtherAccessRuns | VM/altairx_v2/src/core.cpp:340-382 | The unit's other operations do nothing |
| Addressing.ElementsDisjoint | VM/altairx_v2/src/core.cpp:343-352 | Elements of 2^k bytes at base plus i times 2^k share no byte, for all arrays within a bank |
| Addressing.WramInOneBank | VM/altairx_v2/src/memory.cpp:18-55 | Every range that fits WRAM is within a bank in that sense |
| Addressing.ElementComesBack | VM/altairx_v2/src/core.cpp:343-352 | An array element stored by index register comes back from any later load of it, whatever units run and store to other elements in between |
| Branching.BranchRuns | VM/altairx_v2/src/core.cpp:388-450 | The conditional branches and BRA move pc by the 24-bit field plus 2^24 times the extension exactly when their test on bits 0 and 2 of fr holds, modulo 2^32 |
| Branching.LoopRuns | VM/altairx_v2/src/core.cpp:451-460 | LOOP branches so when lc is 0 and counts it down otherwise |
| Branching.JumpRuns | VM/altairx_v2/src/core.cpp:461-463 | JUMP goes to that number itself |
| Branching.CallRuns | VM/altairx_v2/src/core.cpp:464-471 | CALL goes to that number and CALLR by it; lr is the address behind the bundle |
| Branching.OtherBranchRuns | VM/altairx_v2/src/core.cpp:481-506 | Jump to br, returns to lr and ir, and the system call; other indices are errors |
| Branching.RelativeMoves | VM/altairx_v2/src/core.cpp:388-471 | Run from d words further on, branches, LOOP and CALLR end d words further on |
| Branching.AbsoluteStays | VM/altairx_v2/src/core.cpp:461-467 | JUMP and CALL go to the same place wherever they run |
| Branching.BundleRuns | VM/altairx_v2/src/core.cpp:42-62 | A packaged second word of operation 0 is the first word's extension, any other one runs in slot 1, and without packaging there is neither |
| Branching.SingleIgnoresNext | VM/altairx_v2/src/core.cpp:42-62 | A bundle of one word does nothing with the word behind it |
| Branching.StepRuns | VM/altairx_v2/src/altairx.cpp:295-306 | A step runs the words at pc modulo 2^31 and behind it, counts one cycle, and moves pc and ic by one or two words unless pc has changed |
| Branching.CallEnters | VM/altairx_v2/src/core.cpp:464-471 | A step with a call enters its target, or passes on if that is its own address |
| Branching.CallAndReturn | VM/altairx_v2/src/core.cpp:464-490 | A call to another address, a callee of any length without calls and a RET elsewhere: execution starts at the target and ends up behind the call |
| Footprint.ReadFootprint | VM/altairx_v2/src/core.cpp:76-123 | For every instruction, outcome and read set depend on nothing but the locations it reads |
| Footprint.OrderIrrelevant | VM/altairx_v2/src/core.cpp:42-62 | Two conflict-free units: either order, and both reading the old state, end alike but for r63, and fail alike |
| Footprint.BundleIndependence | VM/altairx_v2/src/core.cpp:42-62 | The same for a packaged bundle, including how far pc moves |
| Conflicts.NamesCover | VM/altairx_v2/src/core.cpp:159-506 | No unit reads or writes anything but the registers its encoding names and the bytes its address maps to |
| Conflicts.EncodingsIndependent | VM/altairx_v2/src/core.cpp:42-62 | Two slots of any units are conflict-free when no register one encoding names as written is named by the other, and they do not both access memory, or both load, or access bytes that do not overlap |
| Conflicts.BranchIndependent | VM/altairx_v2/src/core.cpp:384-506 | A branch-unit instruction beside any ALU instruction is conflict-free, but for a CMP beside a conditional branch |
| Conflicts.ArithmeticIndependent | VM/altairx_v2/src/core.cpp:229-280 | Two arithmetic slots are conflict-free when neither writes a register the other names: a check on the encodings alone |
| Conflicts.AccessesIndependent | VM/altairx_v2/src/core.cpp:333-382 | Two memory accesses are conflict-free when neither loads a register the other names and their mapped bytes do not overlap, or both are loads |
| ZeroRegister.UnitSimulated | VM/altairx_v2/src/core.cpp:76-80 | One unit that first resets r63 is simulated by one in which writes to r63 are dropped |
| ZeroRegister.RunSimulated | VM/altairx_v2/src/core.cpp:76-123 | Over runs of any length the resetting machine and the machine with r63 wired to zero agree on everything but r63, errors included |
| Calls.ControlWriters | VM/altairx_v2/src/core.cpp:384-506 | lr is written exactly by CALL and CALLR in slot 0; no unit writes br, cc or ic; slot 1 never writes pc |
| Calls.LrIsLastLink | VM/altairx_v2/src/core.cpp:464-471 | After any run lr is the address behind the last call that ran |
| Calls.CallReturns | VM/altairx_v2/src/core.cpp:464-490 | A call, a callee run of any length without calls, and a RET: execution is at the bundle after the call if and only if the RET does not sit there itself |
| Calls.PcFollowsIc | VM/altairx_v2/src/altairx.cpp:301-305 | Without jumps pc minus ic is invariant modulo 2^32 |
| Calls.JumpedIff | VM/altairx_v2/src/core.cpp:55-61 | A bundle jumps if and only if its first word is a branch that goes (unit 7, its flag test holding, a LOOP with lc 0) and its target is another address |
| Calls.BranchFreeIsJumpFree | VM/altairx_v2/src/core.cpp:384-506 | A run whose bundles start with no branch that goes has no jumps |
| Calls.CyclesCountSteps | VM/altairx_v2/src/altairx.cpp:303 | cc counts the steps of a run |
| Width.UnitMasks | VM/altairx_v2/src/core.cpp:230-252 | A unit writes its 64-bit result reduced modulo 2 to the operand width |
| Width.MaskOnceAtTheEnd | VM/altairx_v2/src/core.cpp:230-252 | Straight-line ADD, SUB, XOR, OR, AND and immediate LSL at one size: register files congruent modulo 2^n stay congruent when every intermediate cut is dropped |
| Width.SameRegisters | VM/altairx_v2/src/core.cpp:230-252 | From registers of that size, one cut at the end gives the very same registers |
| SignExtend.SextExtends | VM/altairx_v2/src/core.cpp:18-23 | For every 64-bit value, sext reads its low bits as a signed number if and only if no bit above the source width is set |
| SignExtend.SextValue | VM/altairx_v2/src/core.cpp:18-23 | What sext computes on any value: the signed reading of the low bits plus the bits above them, unchanged |
| SignExtend.SextKeepsHighBits | VM/altairx_v2/src/core.cpp:18-23 | A value for which it does not: 0x180 from bytes gives 128, where the low byte reads -128 |
| SignExtend.SextRuns | VM/altairx_v2/src/core.cpp:191-193 | SEXT writes the signed reading plus the bits above the source width, cut to the operand size; that is the signed reading so cut if and only if no register bit from the source width up to the operand size is set |
| Immediates.Imm9Bijection | VM/altairx_v2/src/core.cpp:132-139 | imm9 with imm24 expresses exactly the signed 33-bit values, each once |
| Immediates.Imm10Bijection | VM/altairx_v2/src/core.cpp:146-155 | imm10 with imm24 expresses exactly the signed 34-bit values, each once |
| Immediates.Imm16Bijection | VM/altairx_v2/src/core.cpp:369-380 | imm16 with imm24 expresses exactly the 40-bit stack offsets, each once |
| Immediates.MoveBijection | VM/altairx_v2/src/core.cpp:179-185 | MOVEI and MOVEN together express exactly the signed 43-bit values, each once |
| Immediates.ConstantLoadRuns | VM/altairx_v2/src/core.cpp:42-62 | Every signed 43-bit constant is put in any register by one bundle with a MOVEIX |
| VirtualMachine.AltairX.constructor | VM/altairx_v2/src/altairx.cpp:13-18 | A machine is built with banks of the requested sizes and everything zero, and counts instruction words from the byte WRAM_BEGIN maps to |
| VirtualMachine.PowerOnIsFlat | VM/altairx_v2/src/memory.cpp:5-16 | Built with powers of two and at most 2048 MiB of WRAM, it meets what the loader theorems ask for |
| Loader.EntryPointIff | VM/altairx_v2/src/altairx.cpp:40-62 | The entry point is the last symbol of that name, and only if that one is a function |
| VirtualMachine.AltairX.GetEntryPoint | VM/altairx_v2/src/altairx.cpp:40-62 | The symbol loop finds the specified entry point or error |
| VirtualMachine.AltairX.LoadSections | VM/altairx_v2/src/altairx.cpp:70-106 | The section loop leaves the specified memory, bounds and pc, or the specified error |
| VirtualMachine.AltairX.SetupStack | VM/altairx_v2/src/altairx.cpp:140-163 | The bounds loop sets the stack pointer and returns the stack end as specified |
| VirtualMachine.AltairX.WriteEntryCode | VM/altairx_v2/src/altairx.cpp:201-227 | The stub words are in memory and pc is at the stub, or the specified error |
| VirtualMachine.AltairX.AddArgument | VM/altairx_v2/src/altairx.cpp:172-180 | One string with its terminator right below the old stack pointer |
| VirtualMachine.AltairX.LoadHostArgv | VM/altairx_v2/src/altairx.cpp:165-199 | Strings, table, r1 and r2 as specified |
| VirtualMachine.AltairX.LoadHostedProgram | VM/altairx_v2/src/altairx.cpp:231-252 | The loader stages in order, stopping at the first error |
| Sections.LoadEachIff | VM/altairx_v2/src/altairx.cpp:70-106 | In any memory the loop gets through if and only if every allocated section passes the size check as computed modulo 2^64 and its copy stays in the bank its address maps to |
| Sections.LoadSectionsSpec | VM/altairx_v2/src/altairx.cpp:70-106 | For any sections, overlapping or wrapping around 2^64, and power-of-two WRAM up to 2 GiB, loading succeeds if and only if all allocated sections are accepted so and one covers the entry symbol; then every byte of WRAM is that of the last section covering it or what it was, the bounds are the allocated sections in order, and all contents are in place if and only if no section wraps around and sections agree wherever they overlap |
| Sections.CoversExactly | VM/altairx_v2/src/altairx.cpp:88-91 | The program's cover test in integers: containment of the symbol's range when both ends or neither wrap around; no when only the section's does; and when only the symbol's does, with its end counted from 0 |
| Sections.CoversMeansContains | VM/altairx_v2/src/altairx.cpp:88-91 | For which sections and symbols the test is containment |
| Sections.ContainsBytes | VM/altairx_v2/src/altairx.cpp:88-91 | For a symbol that is not empty, containment means that each of its bytes is one of the section's |
| Sections.LoadSectionsContains | VM/altairx_v2/src/altairx.cpp:70-106 | In any memory, loading succeeds if and only if all allocated sections are accepted and some allocated section contains the entry symbol, in that sense; plainly where no sum wraps around |
| Sections.LoadEachError | VM/altairx_v2/src/altairx.cpp:80-86 | The first section refused decides the error: not enough memory by the computed end, or a copy leaving its bank |
| Sections.AllocatedIff | VM/altairx_v2/src/altairx.cpp:78 | A section is allocated exactly when bit 1 of its flags is set |
| Sections.SuccessMeansFit | VM/altairx_v2/src/altairx.cpp:80-86 | That success means all sections fit WRAM holds exactly for the lists that are refused or hold no section whose end wraps around |
| Sections.WrappedElsewhere | VM/altairx_v2/src/altairx.cpp:80-86 | An accepted section whose end wraps around begins at 2^63 or above and is copied to a bank other than WRAM |
| Sections.LastWriter | VM/altairx_v2/src/altairx.cpp:76-87 | The byte at an offset is the one of the last allocated section that covers it |
| Sections.NoWriter | VM/altairx_v2/src/altairx.cpp:76-87 | An offset no allocated section covers keeps its byte |
| Sections.IntactIff | VM/altairx_v2/src/altairx.cpp:76-87 | Ranges copied one over the other are all intact if and only if they agree wherever they overlap |
| Sections.OverlapDamages | VM/altairx_v2/src/altairx.cpp:76-87 | Two sections claiming the same byte with different contents: loading succeeds and they are not both in place |
| Sections.WrappedSectionMisplaced | VM/altairx_v2/src/altairx.cpp:80-86 | A section at the last address with its end wrapping around: loading succeeds, WRAM is unchanged and the section is not in it |
| Sections.DisjointSectionsLoad | VM/altairx_v2/src/altairx.cpp:70-106 | Sections that fit and do not overlap are all in place after loading and no other byte of any bank has changed |
| Sections.SectionsEndBelow | VM/altairx_v2/src/altairx.cpp:140-150 | Every loaded byte lies below the end that the stack is placed after |
| Arguments.AddArgumentsIff | VM/altairx_v2/src/altairx.cpp:165-188 | From any state, any list of strings gets through if and only if each block, at the stack pointer less the bytes used so far, lies within the bank it maps to; sp comes down by the sum of length + 1 |
| Arguments.LoadHostArgvIff | VM/altairx_v2/src/altairx.cpp:165-199 | The same with the table below the strings |
| Arguments.StraddleRefused | VM/altairx_v2/src/altairx.cpp:172-180 | With scratchpads of at most 1 GiB, a block that begins below WRAM and reaches into it runs past its bank |
| Arguments.AcceptedMeansFit | VM/altairx_v2/src/altairx.cpp:165-199 | With such scratchpads, and no string starting exactly where WRAM begins, arguments get through if and only if they fit between offset 0 and the stack pointer |
| Arguments.StringsReadable | VM/altairx_v2/src/altairx.cpp:172-188 | From any state and wherever the blocks map to: the pointers are the block addresses, and each string reads back whole if no later block maps over its bytes |
| Arguments.ArgvReadable | VM/altairx_v2/src/altairx.cpp:165-199 | The same for the whole argv, below WRAM or not: r1 is argc, r2 leads to the table of pointers ended by 0, and each pointer to its string |
| Arguments.AddArgumentsSpec | VM/altairx_v2/src/altairx.cpp:165-188 | For any list of strings that fits, each string ends up whole at its own place, sp has come down by the sum of length + 1, and no other byte has changed |
| Arguments.BlocksDescend | VM/altairx_v2/src/altairx.cpp:167-180 | The blocks carved for the strings are strictly descending and disjoint |
| Arguments.LoadHostArgvSpec | VM/altairx_v2/src/altairx.cpp:165-199 | Strings undamaged by the table below them; final sp, argc and argv registers |
| Arguments.ArgvHolds | VM/altairx_v2/src/altairx.cpp:165-199 | Every byte from the final sp up: the table of addresses, then the strings with their terminators, the last one lowest |
| Boot.StubCallsMain | VM/altairx_v2/src/altairx.cpp:205-209 | One fetch and execute from the stub reaches main with lr = stub + 2 and touches nothing else but r63 and cc |
| Boot.StubTakesResult | VM/altairx_v2/src/altairx.cpp:209-210 | Two steps after main has returned to the stub, r2 holds the low 32 bits of r1 |
| Boot.ArgvVisible | VM/altairx_v2/src/altairx.cpp:190-197 | Through the guest's own loads, r2 is a table of pointers to the NUL-terminated strings in order, ended by 0 |
| Boot.HostedLoads | VM/altairx_v2/src/altairx.cpp:231-252 | For any sections and arguments, hosted loading succeeds if and only if main exists as a function, all sections are accepted, one covers main, WRAM has room for stack and stub, and the blocks of all arguments are accepted |
| Boot.HostedLoadsFit | VM/altairx_v2/src/altairx.cpp:231-252 | With scratchpads of at most 1 GiB and no string starting exactly where WRAM begins, a loadable program is loaded if and only if its arguments fit below the stack end |
| Boot.Layout | VM/altairx_v2/src/altairx.cpp:149-162 | The stack ends 1 MiB above the next multiple of 64 KiB after everything loaded |
| Boot.HostedLoadsContains | VM/altairx_v2/src/altairx.cpp:231-252 | Hosted loading succeeds if and only if main is a function, all sections are accepted, an allocated one contains main's range, WRAM has room for stack and stub, and the blocks of all arguments are accepted |
| Boot.HostedError | VM/altairx_v2/src/altairx.cpp:231-252 | A failing hosted load ends in the error of its first failing stage |
| Boot.HostedBoot | VM/altairx_v2/src/altairx.cpp:231-252 | End to end, for any sections and any arguments that fit below the stack end: memory below the stub is the sections in order with the arguments on top, every section is intact if and only if none wraps around and these agree wherever they overlap, r1 is argc, r2 is the argv the guest sees, and one step from the stub is in main with the return address behind the call |
| Boot.HostedImageIntact | VM/altairx_v2/src/altairx.cpp:140-199 | With arguments that stay above everything loaded, which may be up to 64 KiB longer than the stack, every section is intact if and only if none wraps around and sections agree wherever they overlap, so always when they fit and do not overlap |
| Boot.LongArgumentsDamage | VM/altairx_v2/src/altairx.cpp:140-199 | A one-byte program and arguments of 0x10FFF8 bytes in all: loading succeeds and the pointer to the program name has replaced the program's byte |
| Boot.OneLongArgument | VM/altairx_v2/src/altairx.cpp:165-199 | One argument of 0x10FFDD characters makes up that size |
| Scoreboard.Core.PipelineStall | VM/altairx/src/cycle.c:132-280 | The in-place counters become those of the specification and cycle grows by the stall |
| Scoreboard.Core.WaitFor | VM/altairx/src/cycle.c:174-260 | The chain of conditional maxima computes the specified stall |
| Scoreboard.TableIsBytes | VM/altairx/src/cycle.h:22-195 | The operand flags of every operation are the bits of its byte in the program's table |
| Scoreboard.FlagsByOperation | VM/altairx/src/cycle.h:11-14 | Operations 64 to 71 set the flags and 80 to 95 wait for them |
| Scoreboard.BaseByOperation | VM/altairx/src/cycle.c:179-182 | The base-register forms name r0 or r1 by a bit of the operation |
| Scoreboard.AccumulatorIsFree | VM/altairx/src/cycle.c:174-250 | Register 61 is never waited for |
| Scoreboard.StallIsWait | VM/altairx/src/cycle.c:174-260 | The stall is the maximum over the non-accumulator operands the table marks as read, and the flag counter for branches |
| Scoreboard.AgreesWithHistory | VM/altairx/src/cycle.c:137-150 | After any run from zero each counter is the latency of the last write less the bundles since, or 0 |
| Scoreboard.StallAgreesWithHistory | VM/altairx/src/cycle.c:157-279 | The stall charged is the largest wait that the history implies for the bundle's operands |
| Scoreboard.LatencyInCycles | VM/altairx/src/cycle.c:247-274 | A vector write takes 4 cycles, a scalar one 3, or 7 when an immediate form writes r62 or r63, and a comparison 3 |
| Scoreboard.VectorCharge | VM/altairx/src/cycle.c:247-274 | A consumer of a vector result k bundles behind its producer, waiting for nothing else, is charged 4 - k cycles |
| Scoreboard.ScalarCharge | VM/altairx/src/cycle.c:247-274 | A consumer of a scalar result is charged 3 - k, or 7 - k for r62 and r63 of immediate forms |
| Scoreboard.CompareCharge | VM/altairx/src/cycle.c:273-274 | A branch behind a comparison is charged 3 - k |
| Scoreboard.VectorPair | VM/altairx/src/cycle.c:157-279 | Operation 97 writing v5, n empty words and operation 97 reading it: 3 - n cycles |
| Scoreboard.ScalarPair | VM/altairx/src/cycle.c:157-279 | Operation 4 writing r5 and operation 17 reading it: 2 - n cycles |
| Scoreboard.PairPair | VM/altairx/src/cycle.c:157-279 | Operation 17 writing r62 or r63 and reading it: 6 - n cycles |
| Scoreboard.ComparePair | VM/altairx/src/cycle.c:157-279 | Comparison 64 and branch 80: 2 - n cycles |
| Scoreboard.LevelsBounded | VM/altairx/src/cycle.c:265-274 | Register counters never exceed 7, vector counters 4, the flag counter 3 |
| Scoreboard.StallBounded | VM/altairx/src/cycle.c:137-150 | No bundle is charged more than 6 cycles |
| Scoreboard.SixIsReached | VM/altairx/src/cycle.c:247-270 | Two bundles for which the bound is met |
| Scoreboard.TotalStallBounded | VM/altairx/src/cycle.c:279 | n bundles are charged at most 6n cycles |
| CacheModel.Core.RecordMisses | VM/altairx/src/cycle.c:17-129 | The in-place tags and counters become those of the specification |
| CacheModel.TagsAreLastLines | VM/altairx/src/cycle.c:23-30 | Each slot holds the last line accessed in its set (its low 32 bits), or its starting tag |
| CacheModel.MissesAreNewLines | VM/altairx/src/cycle.c:60-73 | The miss count is the number of accesses whose line is not the one their set saw last |
| CacheModel.MissOfShortLines | VM/altairx/src/cycle.c:65-67 | With line numbers of 32 bits an access misses if and only if its line differs from the previous one in its set |
| CacheModel.SameSetIff | VM/altairx/src/cycle.c:24 | Lines share a set exactly when they lie a multiple of the number of sets apart |
| CacheModel.WorkingSetStays | VM/altairx/src/cycle.c:23-73 | As many consecutive lines as there are sets are never evicted: an access misses if and only if it is the first to its line and the starting tag is another |
| CacheModel.CodeLineWords | VM/altairx/src/cycle.c:23 | A code line is 256 instruction words |
| CacheModel.CodeWorkingSet | VM/altairx/src/cycle.c:23-30 | A program within 16384 consecutive words misses exactly once for each 256 words, or not at all where the starting tag holds them |
| CacheModel.DataLineBytes | VM/altairx/src/cycle.c:51-120 | Operations 32 to 47 touch the one line of 128 bytes that holds register B plus a 16-bit offset, register C or a 10-bit offset; no others touch any |
| CacheModel.WaitBytes | VM/altairx/src/cycle.c:116-118 | WAIT adds 64 bytes of traffic for each unit register C counts |
| CacheModel.AgreesWithHistory | VM/altairx/src/cycle.c:17-129 | From any counters and tags, after any run all tags, misses, cycles and traffic are those of the access history |
| CacheModel.CyclesFollowMisses | VM/altairx/src/cycle.c:23-29 | From zero, miss cycles are 94 and 38 per miss and traffic is 1024 and 128 per miss plus the waits, modulo 2^64 |
| PreDecoder.FrontEnd.Fetch | VM/altairx/src/AX-S/AXS.c:214-227 | Four words from pc, pc moved by four, unless the stage is held |
| PreDecoder.FrontEnd.PreDecode | VM/altairx/src/AX-S/AXS.c:48-152 | The slots written case by case are the greedy split of the window with a bundle-starting fourth word held back |
| PreDecoder.FrontEnd.EliminateBranches | VM/altairx/src/AX-S/AXS.c:155-191 | Slots cleared, pc rewound and the delay signal set as specified |
| PreDecoder.FrontEnd.DecodeStage | VM/altairx/src/AX-S/AXS.c:193-209 | The stage is skipped once after a branch and before any fetch, and otherwise does both |
| PreDecoder.WindowRightIff | VM/altairx/src/AX-S/AXS.c:50-147 | A window hands out the bundles of the words it uses up if and only if its fourth word is not a second word with its pairing bit set |
| PreDecoder.WrongWindow | VM/altairx/src/AX-S/AXS.c:134-147 | What a window hands out where it is wrong: its last bundle is issued again by the next one when it begins with a bundle, and lost otherwise |
| PreDecoder.WindowsRefineSplit | VM/altairx/src/AX-S/AXS.c:48-152 | Over any branch-free stream whose second words have pairing bit 0, n windows issue, up to all-zero bundles, exactly the one-at-a-time split of the words passed, 3 or 4 words each |
| PreDecoder.WindowsUseEachWordOnce | VM/altairx/src/AX-S/AXS.c:214-227 | The bundles the windows issue contain every word of the stretch but all-zero ones once and in order, and no others |
| PreDecoder.FrontEnd.RunWindows | VM/altairx/src/AX-S/AXS.c:193-227 | Fetching and decoding n times in place issues the bundles of those n windows and leaves pc where they end |
| PreDecoder.RewindAtMostOne | VM/altairx/src/AX-S/AXS.c:134-190 | A decode rewinds pc by at most one word |
| PreDecoder.AtMostOneAfterBranch | VM/altairx/src/AX-S/AXS.c:163-190 | At most one bundle stays after the first branch, and a branch in the last slot is left for the next window |
| PreDecoder.BranchByOperation | VM/altairx/src/AX-S/AXS.c:157-164 | A branch is a word of operation 76 to 95 |
| PreDecoder.BranchKeepsSlots | VM/altairx/src/AX-S/AXS.c:163-190 | The bundles up to the first branch and the one behind it stay, the others are cleared, and only a branch in the last slot rewinds a word more |
| PreDecoder.NoBranchKeepsAll | VM/altairx/src/AX-S/AXS.c:163-190 | Without a branch nothing is cleared and the next decode goes ahead |
| DecimalPrinter.TableHoldsDigits | VM/altairx/test.c:71-89 | Table entry i is i in two ASCII digits |
| DecimalPrinter.SplitDigits | VM/altairx/test.c:90-103 | High and low digits can be printed separately |
| DecimalPrinter.ParseUndoesDigits | VM/altairx/test.c:90-112 | The positional value of the printed digits is the number |
| DecimalPrinter.ToStringTreeTable | VM/altairx/test.c:70-113 | For every x below 10^16 the 16 bytes are its digits one by one, parse back to x, and nothing behind them changes |
| HalfFloat.TruncatesIff | VM/altairx_v2/include/utilities.hpp:25-70 | Through half and back a float loses exactly its low 13 mantissa bits if and only if its exponent field is 0 or 113 to 143 |
| HalfFloat.HalfRoundTrip | VM/altairx_v2/include/utilities.hpp:25-70 | Half to float and back is the identity on every 16-bit half |
| HalfFloat.RoundsTowardZero | VM/altairx_v2/include/utilities.hpp:25-42 | A float's half keeps the sign and is the largest half no larger in magnitude if and only if the exponent field is 0 or 113 to 143, or the top ten mantissa bits are all ones and the field is a multiple of 16 up to 112 or from 144 on one with its low four bits set |
| HalfFloat.RelativeError | VM/altairx_v2/include/utilities.hpp:25-70 | For exponent fields 113 to 143 the real value keeps its sign, grows no larger and is off by less than one part in 1024 |

## Left out

- Console, file, clock and argument-parsing code, system-call emulation, debug printing and ELF parsing.
- The FPU, EFU, CU and VU, which the second VM does not support: they are errors here, as its assertions make them.
- Whether the branch names match the meaning of CMP: the model keeps the program's own flag tests.
- ASR and signed DIV as arithmetic operations: the program shifts and divides unsigned words, and so does the model.
- The end of the entry stub: its words are placed as they are, but only the call into main and the move of its result are followed, as the word commented as a move of 3 into r1 is another one.
- Zero-initialised section space beyond the file content: the loader neither clears nor reserves it.
- WRAM larger than 2 GiB or not a power of two in the theorems about loaded images; the loader methods cover it.
- Sections.LoadSectionsSpec: says of sections whose end wraps around only that they leave WRAM alone, not which bytes of the other banks they replace.
- Boot.HostedBoot: leaves out arguments reaching below WRAM; they are refused (Boot.HostedLoadsFit) unless a string starts exactly where WRAM begins, and then Arguments.ArgvReadable says what the guest finds.
- Arguments.AddArgumentsSpec: speaks of strings that fit in WRAM; which other lists get through and what they leave is in Arguments.AddArgumentsIff and Arguments.StringsReadable.
- Arguments.LoadHostArgvSpec: speaks of arguments that fit in WRAM; the others are in Arguments.LoadHostArgvIff and Arguments.ArgvReadable.
- PreDecoder.WindowsRefineSplit: leaves out streams with branches, where squashed words depend on stages the program does not have yet.
- HalfFloat.RelativeError: speaks of normal floats only, as the processor treats the others as zero or as its maximum.
- The second operand table of the scoreboard and its second slot: the program's loop over slots stops after the first.
- Whether the operand table describes each instruction correctly: its flags are taken as data.
- The instruction interpreter of the first VM, the loader for raw files and kernels, the GPU sketch and the Verilog memories.

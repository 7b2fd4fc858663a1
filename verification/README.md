# A verified model of a Mega Drive emulator and recompiler

Dafny models of the parts of the repository where most can go wrong, with proofs about all
inputs, all runs or all reachable states:

* the 68000 interpreter's arithmetic, shifts, decimal instructions, division, MOVEM, branches
  and exception frames (`words`, `registers`, `alu`, `conditions`, `limbs`, `rotations`,
  `shift`, `bcd`, `divide`, `movem`, `branch`, `ram`, `frames`);
* decoding as far as length and control flow go, an assembler that it inverts, and branches and
  jumps from the opcode to where they land (`decode`, `opcode_map`, `assembler`,
  `control_step`);
* the static recompiler: the three nested loops of the analyser, the emitted label-and-goto text
  and its meaning (`code_graph`, `rom_image`, `analyzer`, `machine`, `lifter`, `lifted`,
  `fallthrough`, `recompiler`, and two programs: `loop_opcodes`, `endless_loop`,
  `overlapped_loop`);
* the video processor's ports, DMA, register caches and their setting up, and save states (`bus`,
  `dma`, `vdp_registers`, `vdp`, `vdp_setup`, `vdp_transfers`, `state_dump`);
* the two renderers and the pictures they show (`plane`, `video`, `pictures`), and the protocol
  between the two threads of the window (`gui`, `gui_frames`).

`dafny verify dfyconfig.toml` checks everything.

## How it is built

Code that changes state is modelled as classes and methods with the source's loops and
branches; every such method is proved against a function of its inputs or of the old state,
and the promised properties are lemmas about that function. `Alu.Arithmetic` is exact integer
arithmetic, `Shift.ValueAfter` closed forms, `Frames.Run` and `Vdp.Run` are whole runs,
`Machine.Step` is the control flow of the ROM and `Lifted.Trace` that of the emitted text.
Formats that the source only reads are pinned by encoders written on their own:
`Assembler.Assemble` for opcodes, `VdpSetup.Encoded` for the video registers,
`Pictures.EntryWord` and `Pictures.Packed` for name tables and tiles.

The main results, in the order of their difficulty:

1. `Recompiler.Recompile`: the analyser finds exactly the reachable code, and the emitted
   program executes exactly the instruction sequences the machine can, for every choice of
   branch outcomes and (resolved) indirect targets. The second part needs `WellLaid`: every
   goto has its label, no block runs into something that is not code, the fallthrough of a
   conditional branch is a block and no other block starts before it, no static call or jump
   has a target known to be wrong. `Fallthrough.BranchTranslatedExactly` shows on whole
   executions that the condition on fallthroughs is exact, because the lifter emits no goto
   for the fallthrough of a conditional branch. `EndlessLoop.IsLifted` exhibits a program that
   meets all conditions, and `OverlappedLoop.IsMistranslated` one that does not and
   whose text loses code: a loop that is entered by falling into it.
2. `Assembler.DecodesExactlyTheAssembled`: an address decodes to an instruction of some length
   and control flow if and only if the words of an assembled instruction with these stand
   there, for the whole opcode map. `ControlStep.StepBranch`, `StepDbcc` and `StepJump` parse
   the same words one by one, execute them, and land on the analyser's edges.
3. `Shift.ExecuteShift`, `Limbs.*`, `Bcd.*`: the bit-by-bit and digit-by-digit code is
   arithmetic, and executing a chain of instructions is arithmetic on numbers of any length.
4. `StateDump.SaveThenLoadExactly`: what a saved file restores, with the exact condition; and
   `VdpSetup.SetupSets`: the words encoded for any settings leave exactly these settings.
5. `Frames.NestedProgramsRestore`: any nesting of calls, traps and interrupts over byte-level
   memory.
6. `Video.DrawWholePlane`, with `Video.RenderersAgree` and `PlaneDraw.DrawPlane`: scattering
   and gathering agree; and `Pictures.ScreenShows`, `WindowShows`, `CanvasShows`: an encoded
   picture is what they show.
7. `Gui.NoExecutionWhileHeld`, `Gui.NoLostWakeUp`, `Gui.WokenInTime`: all interleavings of the
   two threads, sleeping and notifications included; `GuiFrames.VblankHandsOver`,
   `NoExecutionBeforeRelease` and `FramesAreShown`: every vertical blank does hand over its
   frame, and frames are shown.

Where the code departs from its intent, the model keeps the code, and a lemma says exactly
when the intended property holds: `Conditions.CmpaTestsOrderExactly`,
`Shift.AsrCarryExactly`, `Frames.TrapFrameExactly`, `Frames.VblankFrameExactly`,
`Branch.EmittedAgreesExactly`, `Fallthrough.BranchTranslatedExactly`,
`Dma.OutOfBoundsExactly`, `Dma.SmallRamPathsAgreeExactly`, `Dma.VramPathsAgreeExactly`,
`Vdp.RestoresCachedFieldsExactly`.

Preconditions stand only where the source has undefined behaviour or relies on its caller:
DIVS of -2^31 by -1; an image taken to have a header but shorter than its vectors, or one so
large that addresses in it wrap around (`CodeGraph.Loadable`); a plane drawn as a whole whose
own table reaches past the video RAM; operand values already cut to their size. Undefined
register values, accesses outside a RAM, table entries behind the video RAM, stacks anywhere
and aborts are outcomes of the model rather than preconditions.

Inputs of the model are the clock comparison of the interrupt check, the operands and
addresses that addressing modes supply, vector contents, what a stack access outside the work
RAM yields, the colour tables, the sprites' pixels, and the outcomes of conditions.

## Model

| member | source | states |
|---|---|---|
| `CodeGraph.CoversExactlyTheReachable` | src/recomp/analyzer.cpp:53-293 | the instructions in all blocks of all functions of a finished analysis are exactly the in-ROM, even, decodable addresses reachable from the seeds through static successors |
| `CodeGraph.OrderDoesNotMatter` | src/recomp/analyzer.cpp:81-87 | any two finished analyses cover the same code; Analyzer.Analyzer.Run ends in one whatever order the pending functions and blocks are taken in, so the order cannot matter |
| `CodeGraph.CoveredStep` | src/recomp/analyzer.cpp:104-156 | wherever a covered instruction statically leads, an instruction found there is covered too: through the block, the queue or the function stack |
| `CodeGraph.TargetsAreLeads` | src/recomp/analyzer.cpp:126-154 | the targets pushed and enqueued for a block are exactly where its last instruction leads; a block cut off at bad code has none |
| `CodeGraph.Advances` | src/m68k/instruction/decode.cpp:45-166 | a decoded instruction advances the program counter by an even 2 to 10 bytes without wrapping: the measure of the sweep |
| `Decode.InstLength` | src/m68k/instruction/decode.cpp:45-166 | an instruction starts where it was asked for and is one to five words long; how long exactly is Assembler.DecodesExactlyTheAssembled |
| `OpcodeMap.PatternsAreTheMap` | src/m68k/instruction/decode.cpp:170-614 | the chain of patterns, tried in the source's order, is a map by the four digits of the opcode: how many words follow each one, or that it is none |
| `Assembler.StaticAgrees` | src/recomp/analyzer.cpp:309-323 | the analyser's static target of an operand is the address that the operand names: both words of a long address, a sign-extended short one, or a displacement from its own word |
| `Assembler.DecodesAssembled` | src/m68k/instruction/decode.cpp:45-614 | the words of any assembled instruction decode to an instruction with as many words and with its control flow |
| `Assembler.InstructionAt` | src/m68k/instruction/decode.cpp:45-614 | whatever decodes has been assembled from some instruction |
| `Assembler.DecodesExactlyTheAssembled` | src/m68k/instruction/decode.cpp:45-614 | an address decodes to an instruction if and only if the words of an assembled one stand there, and then with its length and its control flow: relative targets, calls by condition bits, static, indirect and unknown jumps, returns |
| `ControlStep.ParseTarget` | src/m68k/instruction/decode.cpp:95-165 | read word by word, an operand has the mode and index asked for and the words that stand behind the opcode, and the program counter moves over exactly these; an unknown mode moves nothing |
| `ControlStep.DecodeBranch` | src/m68k/instruction/decode.cpp:489-505 | a branch opcode read word by word, with a second word exactly when the displacement byte is zero: the program counter is where the analyser continues and the displacement leads where it leads |
| `ControlStep.ConditionCodes` | src/m68k/instruction/decode.cpp:489 | the four condition bits are a flag test and its negation |
| `ControlStep.CodesCompare` | src/m68k/instruction/execute.cpp:99-138 | after a comparison a branch by any condition code is taken exactly when the operands are as its code asks |
| `ControlStep.StepBranch` | src/m68k/instruction/execute.cpp:553-587 | decoded and executed, Bcc and BSR land on the recorded target when the condition holds and behind the instruction otherwise; BSR pushes the address behind it |
| `ControlStep.StepDbcc` | src/m68k/instruction/execute.cpp:559-574 | decoded and executed, DBcc counts the register its opcode names and lands on the recorded target or behind the instruction |
| `ControlStep.EffectiveIsStatic` | src/m68k/target/target.cpp:117-140 | the address the interpreter computes is the one the analyser computed, for every operand that names a fixed place |
| `ControlStep.StepJump` | src/m68k/instruction/execute.cpp:588-599 | decoded and executed, JMP and JSR go to the recorded target; where the analyser recorded none they go to what the registers say, or to address zero |
| `RomImage.WordReads` | src/recomp/analyzer.cpp:23-38 | an instruction word is the two bytes at its address, the high one first |
| `RomImage.WordAliases` | src/recomp/analyzer.cpp:23-38 | addresses have 24 bits, and behind the image stand zeros |
| `RomImage.VectorsStand` | src/recomp/analyzer.cpp:54-66 | the vectors are exactly the longs that stand at 4, 0x70 and 0x78 |
| `RomImage.TableStands` | src/recomp/analyzer.cpp:325-346 | entry i of a switch table is the big-endian value i entries behind its address |
| `Analyzer.RomRead` | src/recomp/analyzer.cpp:340-346 | big-endian value of the bytes, zeros outside the image, address and value modulo 2^32, nothing for a negative length |
| `Analyzer.ReadSwitchTable` | src/recomp/analyzer.cpp:325-334 | lists exactly the table's entries that lie in the ROM |
| `Analyzer.Analyzer.constructor` | src/recomp/analyzer.cpp:45-49 | starts empty, with the tables filed by address, a later one replacing an earlier one |
| `Analyzer.Analyzer.EnqueueFunction` | src/recomp/analyzer.cpp:94-100 | an even address in the ROM becomes known and pending once; any other call changes nothing; the books of pending, known and traced entries stay balanced |
| `Analyzer.Analyzer.SwitchTargets` | src/recomp/analyzer.cpp:250-260 | exactly the in-ROM entries of all filed tables |
| `Analyzer.Analyzer.TraceBlock` | src/recomp/analyzer.cpp:160-296 | terminates (ROM size minus address) with a block of reachable, decoded, consecutive instructions whose exit is what its last instruction, bad code or a following function entry dictates; no interior instruction is a known entry |
| `Analyzer.Analyzer.FollowUp` | src/recomp/analyzer.cpp:126-154 | appends exactly the block's successors, all reachable, and makes every called or switched-to function known |
| `Analyzer.Analyzer.TraceFunction` | src/recomp/analyzer.cpp:104-156 | terminates (ROM addresses not yet blocks, then queue length); afterwards the function has its entry block and every successor of a block is a block, no code, or another function's entry; functions traced before stay so; all this with the queued blocks taken in the source's order or in any other |
| `Analyzer.Analyzer.SeedVectors` | src/recomp/analyzer.cpp:55-66 | the reset, vblank and hblank vectors that are code become known |
| `Analyzer.Analyzer.SeedTable` | src/recomp/analyzer.cpp:69-74 | every even in-ROM target of a configured table becomes known |
| `Analyzer.Analyzer.EnqueueSeeds` | src/recomp/analyzer.cpp:54-78 | every seed that is even and in the ROM is known: vectors, targets of all configured tables, configured functions |
| `Analyzer.Analyzer.Run` | src/recomp/analyzer.cpp:53-90 | terminates (ROM addresses not yet functions) with a complete map, so the instructions found are exactly the reachable ones, in whatever order pending functions and blocks are taken |
| `Machine.RunIsCovered` | src/recomp/analyzer.cpp:53-293 | in every run with arbitrary branch outcomes, matched calls and returns, resolved indirect transfers and interrupts anywhere, every program counter and every return address on the stack is covered or holds no instruction |
| `Machine.StepStaysFine` | src/recomp/analyzer.cpp:213-292 | one instruction keeps that invariant |
| `Machine.InterruptStaysFine` | src/recomp/analyzer.cpp:56-65 | an interrupt through a vector keeps it |
| `Lifter.EmitBlock` | src/recomp/lifter.cpp:111-154 | the comment and statements of every instruction in order, then the statement of the exit |
| `Lifter.EmitFunction` | src/recomp/lifter.cpp:84-107 | a goto to the entry, then all blocks, each under its label, in strictly ascending order |
| `Lifter.EmitNext` | src/recomp/lifter.cpp:97-100 | the block with the least remaining address, as an ordered map is walked |
| `Lifter.EmitProgram` | src/recomp/lifter.cpp:62-79 | one text per function found |
| `Lifted.TranslationAgrees` | src/recomp/lifter.cpp:701-795 | the transfer the lifter recomputes from an opcode is the one the analyser recorded, for Bcc, DBcc, BSR, JMP, JSR, RTS, RTE and RTR |
| `Lifted.FindBlock` | src/recomp/lifter.cpp:97-101 | behind a block's label stands exactly that block's text, followed by the label of the next higher block start or the end |
| `Lifted.RunStraight` | src/recomp/lifter.cpp:116-120 | control passes all instructions of a block in order up to the last one |
| `Lifted.FallsThroughExactly` | src/recomp/lifter.cpp:141-143 | what follows a block in the text is its fallthrough exactly when the fallthrough is a block and no other block starts before it |
| `Fallthrough.BranchFallsThroughExactly` | src/recomp/lifter.cpp:84-143 | on the emitted text of a whole function a branch not taken arrives at its fallthrough if and only if the fallthrough is a block and no other block starts before it |
| `Fallthrough.TextNext` | src/recomp/lifter.cpp:84-154 | what the emitted program can execute after a block that ends in a branch: the target, or the block that comes next in the text |
| `Fallthrough.MachineNext` | src/recomp/analyzer.cpp:213-230 | what the machine can execute there: the target or the fallthrough |
| `Fallthrough.BranchTranslatedExactly` | src/recomp/lifter.cpp:84-154 | from such a block, with every block holding code and the target being a block, text and machine can execute the same next instructions if and only if the fallthrough is a block and no other block starts before it |
| `Lifted.EndAgrees` | src/recomp/lifter.cpp:123-152 | after a block, text and machine are in step again: same address, same return stack, same end |
| `Lifted.TextIsFollowed` | src/recomp/lifter.cpp:84-154 | whatever sequence of instructions the emitted program executes, for any outcomes of conditions and indirect targets, the machine can execute |
| `Lifted.MachineIsFollowed` | src/recomp/lifter.cpp:84-154 | whatever the machine executes, the emitted program executes under some outcomes |
| `Lifted.TextIsTheMachine` | src/recomp/lifter.cpp:84-154 | both directions: started at any function, emitted program and machine have the same executions |
| `Recompiler.Recompile` | src/lib/bin/smd_recomp/main.cpp:39-48 | analysis then emission: the covered code is exactly the reachable code, and if the layout is sound the emitted program has the machine's executions |
| `LoopOpcodes.DecodesBranch` | src/m68k/instruction/decode.cpp:489-505 | every one-word branch with displacement -2 decodes to a branch to its own address, unconditional, conditional or to a subroutine by its condition bits |
| `LoopOpcodes.DecodesNop` | src/m68k/instruction/decode.cpp:45-166 | 4E71 decodes to an instruction of one word that goes straight on |
| `EndlessLoop.Decoded` | src/m68k/instruction/decode.cpp:489-505 | the bytes 66 FE 60 FE decode to a conditional branch to address 0 and an unconditional one to address 2 |
| `EndlessLoop.IsComplete` | src/recomp/analyzer.cpp:53-293 | two blocks are a finished analysis of that program |
| `EndlessLoop.TextOfBlocks` | src/recomp/lifter.cpp:700-714 | the conditional branch is emitted as a comment and a conditional goto with nothing for the fallthrough, the other as a comment and its goto twice |
| `EndlessLoop.IsLifted` | src/recomp/lifter.cpp:84-154 | for that program, which has a block that ends in a conditional branch, all conditions of the translation theorem hold together |
| `OverlappedLoop.IsComplete` | src/recomp/analyzer.cpp:53-293 | three blocks, one of them inside another, are a finished analysis of 4E71 66FE 60FE: a loop entered by falling into it |
| `OverlappedLoop.IsItsText` | src/recomp/lifter.cpp:84-154 | the text emitted for it |
| `OverlappedLoop.IsMistranslated` | src/recomp/lifter.cpp:141-143 | the machine can leave that loop and the emitted text cannot, so the two do not have the same executions |
| `Alu.IsCarryMeaning` | src/m68k/instruction/execute.cpp:73-84 | `value & (value ^ mask)` is non-zero exactly when the value exceeds the size |
| `Alu.MsbMeaning` | src/m68k/instruction/execute.cpp:144-146 | the bit read is the sign of the low part of a 64-bit value |
| `Alu.TricksAreArithmetic` | src/m68k/instruction/execute.cpp:73-153 | for every size, operand and X the recovered value, C, V, N and Z are those of the exact unsigned and signed results |
| `Alu.ExecuteBinary` | src/m68k/instruction/execute.cpp:323-360 | ADD, SUB and CMP in all operand forms: result modulo the size, C unsigned range, V signed range, X only for ADD and SUB, nothing written by CMP, rest of SR unchanged |
| `Alu.ExecuteExtended` | src/m68k/instruction/execute.cpp:406-423 | ADDX and SUBX: exact result with X, Z only ever cleared |
| `Alu.ExecuteNegate` | src/m68k/instruction/execute.cpp:653-695 | NEG and NEGX are zero minus the operand minus X, with all five flags |
| `Alu.ExecuteCmpa` | src/m68k/instruction/execute.cpp:361-387 | CMPA on 32 bits: N, Z and V right, C as the source computes it |
| `Alu.CmpaTricks` | src/m68k/instruction/execute.cpp:378-382 | the carry of CMPA is the borrow or any negative word source |
| `Conditions.CompareTestsOrder` | src/m68k/instruction/execute.cpp:99-138 | after CMP of any size each of the sixteen conditions holds exactly when what it says is so: how destination and source stand in order, signed or unsigned, whether the signed difference leaves the range, what its sign is |
| `Conditions.CmpaTestsOrderExactly` | src/m68k/instruction/execute.cpp:361-387 | after CMPA a condition tests the order if and only if it ignores C, or the source is no negative word, or the destination is below the extended source, or it is HI or LS on equal operands |
| `Conditions.CmpaWordFails` | src/m68k/instruction/execute.cpp:378 | A = 0xFFFFFFFF against 0xFFFF sets both C and Z, so CS holds on equal operands |
| `Conditions.CompareThenTest` | src/m68k/instruction/execute.cpp:99-138 | a compare followed by a test of any condition decides what the condition says |
| `Limbs.ChainValue` | src/m68k/instruction/execute.cpp:406-423 | a chain of ADDX or SUBX over any number of limbs: the exact result is the written number plus or minus the final X times the range; Z is the initial Z and the whole result being zero |
| `Limbs.ChainIsModular` | src/m68k/instruction/execute.cpp:406-423 | the written number is the exact one modulo 2^(bits n), and X tells whether they differ |
| `Limbs.ChainOverflow` | src/m68k/instruction/execute.cpp:406-423 | the final V is the signed overflow of the whole numbers |
| `Limbs.NegateChain` | src/m68k/instruction/execute.cpp:653-695 | a chain of NEGX negates the whole number, with X, Z and V of the whole |
| `Shift.ShiftLoop` | src/m68k/instruction/execute.cpp:489-529 | the one-bit loop for all eight kinds: value, X, last bit and sign-change flag equal their closed forms after any count below 64 |
| `Shift.ExecuteShift` | src/m68k/instruction/execute.cpp:466-552 | the instruction leaves the closed-form value and flags for every size, value, X and count 0 to 63 |
| `Shift.Rotation` | src/m68k/instruction/execute.cpp:481-487 | a register count is taken modulo 64 and an opcode count of zero means eight, so the count is below 64 |
| `Shift.CountsReadBack` | src/m68k/instruction/execute.cpp:481-487 | counts one to eight, encoded in three bits, read back, and of a register the low six bits count |
| `Shift.RoxrUndoesRoxl` | src/m68k/instruction/execute.cpp:497-521 | ROXR by k undoes ROXL by k, X included |
| `Shift.RorUndoesRol` | src/m68k/instruction/execute.cpp:497-517 | ROR by k undoes ROL by k |
| `Shift.AslMultiplies` | src/m68k/instruction/execute.cpp:524-536 | V is clear after ASL if and only if the signed result is the operand times 2^k |
| `Shift.AsrDivides` | src/m68k/instruction/execute.cpp:510-512 | ASR is floor division of the signed operand by 2^k |
| `Shift.AsrCarryExactly` | src/m68k/instruction/execute.cpp:505-509 | the carry of ASR is the last bit moved out if and only if the count does not exceed the width or the operand is not negative |
| `Shift.AsrCarryFails` | src/m68k/instruction/execute.cpp:505-506 | ASR.B of 0xFF by 9 moves out a one and reports C clear |
| `Rotations.RotatedStep` | src/m68k/instruction/execute.cpp:496-498 | the closed form of a rotation by k+1 is one step after the one by k, for any width |
| `Rotations.RotateRoundTrip` | src/m68k/instruction/execute.cpp:496-517 | a right rotation undoes the left rotation by the same amount, for any width |
| `Limbs.ExecuteChain` | src/m68k/instruction/execute.cpp:406-423 | executing ADDX or SUBX limb after limb on one machine leaves the limbs, X, V and Z that the chain lemmas speak of |
| `Limbs.ExecuteNegateChain` | src/m68k/instruction/execute.cpp:653-695 | the same for NEGX |
| `Bcd.ExecuteAbcd` | src/m68k/instruction/execute.cpp:235-273 | for any two bytes: digits, X, C, N, V and accumulated Z |
| `Bcd.AddDigitwise` | src/m68k/instruction/execute.cpp:242-262 | the two digit corrections for any two bytes |
| `Bcd.ExecuteSbcd` | src/m68k/instruction/execute.cpp:274-322 | the same for SBCD and NBCD |
| `Bcd.SubtractDigitwise` | src/m68k/instruction/execute.cpp:292-311 | the two digit corrections for any two bytes |
| `Bcd.DigitsAreDecimal` | src/m68k/instruction/execute.cpp:235-322 | on valid decimal bytes one step is decimal arithmetic modulo 100 and the result is valid |
| `Bcd.ChainIsDecimal` | src/m68k/instruction/execute.cpp:235-322 | chained ABCD or SBCD over any length: the exact decimal result is the written number plus or minus X times 100^n, all bytes valid, Z accumulated |
| `Bcd.ChainIsModular` | src/m68k/instruction/execute.cpp:235-322 | the written number is the exact one modulo 100^n and X tells whether it left the range |
| `Bcd.NegateChain` | src/m68k/instruction/execute.cpp:274-322 | chained NBCD is the ten's complement |
| `Bcd.AddThenSubtract` | src/m68k/instruction/execute.cpp:235-322 | subtracting what was added gives the bytes back, borrow out equal to carry out |
| `Bcd.ExecuteChain` | src/m68k/instruction/execute.cpp:235-322 | executing ABCD or SBCD byte after byte on one machine leaves the bytes, X and Z that the chain lemmas speak of |
| `Bcd.ExecuteNegateChain` | src/m68k/instruction/execute.cpp:274-322 | the same for NBCD |
| `Divide.ExecuteDivide` | src/m68k/instruction/execute.cpp:1033-1081 | zero divisor: the trap with its frame, wherever the stack is, and cleared flags; otherwise V set and nothing written exactly when the truncated quotient does not fit, else the packed result and flags |
| `Divide.DivideOperands` | src/m68k/instruction/execute.cpp:1052-1067 | the 32-bit computations yield the mathematical truncated quotient and remainder and the fit test |
| `Divide.DivideUnsigned` | src/m68k/instruction/execute.cpp:1055-1058 | the unsigned case |
| `Divide.DivideSigned` | src/m68k/instruction/execute.cpp:1059-1067 | the signed case, narrowed to 32 and 16 bits |
| `Divide.ExecuteMultiply` | src/m68k/instruction/execute.cpp:1010-1032 | the 32-bit result reads back as the exact product; N, Z of it, C and V clear |
| `Divide.DivisionIsExact` | src/m68k/instruction/execute.cpp:1052-1078 | dst = q src + r with the magnitude of r below that of src and the sign of the dividend, and both halves of a fitting packed result read back as q and r |
| `Divide.UndefinedExactly` | src/m68k/instruction/execute.cpp:1059-1067 | the case set aside is exactly the one whose quotient does not fit in 32 bits |
| `Divide.MultiplyThenDivide` | src/m68k/instruction/execute.cpp:1010-1081 | dividing a product by one factor gives the other with r = 0 and no overflow, also for -32768 times -32768 |
| `Branch.DisplacePc` | src/m68k/instruction/execute.cpp:190-208 | the displacement is added with the parsed word taken back as the source does, modulo 2^32 |
| `Branch.ExecuteBcc` | src/m68k/instruction/execute.cpp:553-558 | from the decoded position the interpreter lands on the analyser's target exactly when the condition holds |
| `Branch.ExecuteBsr` | src/m68k/instruction/execute.cpp:583-587 | the address of the next instruction is pushed and control lands on the analyser's target, whatever becomes of the push |
| `Branch.ExecuteDbcc` | src/m68k/instruction/execute.cpp:559-574 | the counter's low word counts down, and the branch lands on the same target unless it passes zero |
| `Branch.EmittedAgreesExactly` | src/recomp/lifter.cpp:716-728 | the emitted DBcc counts and branches like the interpreter if and only if the condition is not True |
| `Branch.DbfLoop` | src/m68k/instruction/execute.cpp:559-574 | a DBF loop entered with low word w branches back exactly w times and leaves 0xFFFF |
| `Branch.DbfAlike` | src/recomp/lifter.cpp:716-728 | interpreter and emitted code take the counting path of DBF alike |
| `CpuRegisters.WordRoundTrip` | src/m68k/registers/registers.h:58-65 | status register to word and back is the identity |
| `CpuRegisters.MaskSrFields` | src/m68k/instruction/execute.cpp:970-972 | the mask drops bits 12 and 14 and nothing else |
| `CpuRegisters.Registers.SetStackPtr` | src/m68k/registers/registers.h:72-74 | writes the pointer the supervisor flag selects and leaves the other |
| `Ram.M68kRam.Read` | src/sega/memory/m68k_ram_device.cpp:28-33 | the bytes at the address's position |
| `Ram.M68kRam.Write` | src/sega/memory/m68k_ram_device.cpp:35-40 | changes exactly those bytes |
| `Ram.WordRoundTrip` | src/sega/memory/m68k_ram_device.cpp:28-40 | big-endian bytes of a word read back as the word |
| `Ram.LongRoundTrip` | src/sega/memory/m68k_ram_device.cpp:28-40 | big-endian bytes of a long read back as the long |
| `Frames.NestedProgramsRestore` | src/m68k/instruction/execute.cpp:583-599 | in supervisor mode every well-nested program of calls, traps, interrupts and local code, of any depth, returns with the same stack pointer and live stack |
| `Frames.NestedItemsRestore` | src/m68k/instruction/execute.cpp:947-981 | each return goes to the saved program counter, and RTE restores SR except bits 12 and 14 |
| `Frames.NoReentry` | src/sega/executor/interrupt_handler.cpp:35-37 | while nothing lowers the mask no nested program enters the vertical-blank handler again |
| `Frames.PollEntersExactly` | src/sega/executor/interrupt_handler.cpp:30-49 | a poll enters the handler, once, if and only if the interrupt is enabled and due and the mask is below six |
| `Frames.WorkRamAddresses` | src/sega/memory/m68k_ram_device.cpp:28-40 | the work RAM answers exactly at the highest 64 kilobytes of the 24-bit bus |
| `Frames.TrapFrameExactly` | src/m68k/instruction/execute.cpp:947-981 | TRAP then RTE is the identity if and only if it starts in supervisor mode |
| `Frames.VblankFrameExactly` | src/sega/executor/interrupt_handler.cpp:59-79 | vertical-blank entry then RTE is the identity if and only if it starts in supervisor mode |
| `Frames.Machine.PushStack` | src/m68k/instruction/execute.cpp:169-177 | the pointer moves down; the bytes are there if they fit in the work RAM, and otherwise the RAM is unchanged and the miss is told |
| `Frames.Machine.PopStack` | src/m68k/instruction/execute.cpp:179-188 | the bytes on top, from the work RAM or what another device gives; the pointer moves up only if the read succeeds |
| `Frames.Machine.ExecuteCall` | src/m68k/instruction/execute.cpp:588-599 | JSR with its target given: return address pushed, target taken whatever becomes of the push, odd target refused |
| `Frames.Machine.ExecuteTrap` | src/m68k/instruction/execute.cpp:947-960 | supervisor first, then the six-byte frame, then the handler, whatever becomes of the pushes |
| `Frames.Machine.CallVblank` | src/sega/executor/interrupt_handler.cpp:59-79 | frame first, then supervisor, mask and handler; a refused push ends it with the pointer already moved |
| `Frames.Machine.CheckInterrupt` | src/sega/executor/interrupt_handler.cpp:30-49 | enters the handler exactly when enabled, unmasked and due, passing on a refused push; otherwise changes nothing |
| `Frames.Machine.ExecuteRts` | src/m68k/instruction/execute.cpp:961-981 | pops the program counter, or keeps it when the read fails; odd ones are refused |
| `Frames.Machine.ExecuteRte` | src/m68k/instruction/execute.cpp:961-981 | pops the masked status register and the program counter from wherever the stack is; undefined exactly when the first read fails, because the source then uses an unset variable |
| `Movem.Gather` | src/m68k/instruction/execute.cpp:840-858 | the bytes of the listed registers in order, the predecrement form reading the mask backwards |
| `Movem.GetRegister` | src/m68k/instruction/execute.cpp:807-815 | registers 0 to 15 are D0 to D7, A0 to A6 and the selected stack pointer |
| `Movem.SetRegister` | src/m68k/instruction/execute.cpp:807-815 | writing one of them changes no other |
| `Movem.StoreMultiple` | src/m68k/instruction/execute.cpp:840-861 | the pointer moves down by the bytes of the list (A7 by two even for an empty one, as in the source); these bytes stand there and nothing else has changed; on a stack in the RAM they end exactly at the old pointer, and all above it stays |
| `Movem.AdjustmentIsLength` | src/m68k/target/target.cpp:96-115 | what the source moves the pointer by is the length of the bytes of the list, but for A7 and an empty list |
| `Movem.StoreEnds` | src/m68k/instruction/execute.cpp:858-859 | bytes written below a pointer end at it and leave everything above and below them alone |
| `Movem.LoadMultiple` | src/m68k/instruction/execute.cpp:817-839 | listed registers loaded from consecutive bytes, words sign-extended, pointer skipped and moved up by exactly the bytes consumed (A7 by two for an empty list) |
| `Movem.LoadsWhatWasStored` | src/m68k/instruction/execute.cpp:804-862 | loading stored bytes gives every listed register but the pointer its value, sign-extended for words, and leaves the others |
| `Movem.SaveAndRestore` | src/m68k/instruction/execute.cpp:804-862 | store with the reversed mask, change registers at will, load: every listed register and the pointer restored, for every mask, size and pointer |
| `Bus.FirstMatch` | src/sega/memory/bus_device.cpp:44-51 | nothing is found exactly when no mapping contains the address |
| `Bus.BusDevice.AddDevice` | src/sega/memory/bus_device.cpp:21-23 | the device is appended |
| `Bus.BusDevice.FindByAddr` | src/sega/memory/bus_device.cpp:44-51 | the first mapping containing the address |
| `Bus.BusDevice.Read` | src/sega/memory/bus_device.cpp:25-31 | the device at the masked start address fills the buffer, or the unmapped error leaves it alone |
| `Bus.EarlierDevicesWin` | src/sega/memory/bus_device.cpp:21-51 | adding a device changes only addresses that no earlier device contains |
| `Bus.RamServesItsRange` | src/sega/memory/bus_device.cpp:25-51 | a RAM mapped over its range serves exactly the addresses in it, both ends included, and gives its bytes |
| `Bus.RomServesItsImage` | src/sega/memory/rom_device.cpp:11-16 | a ROM gives the bytes of its image and leaves the buffer alone behind its end |
| `Dma.BlockCopyIsWordCopy` | src/sega/memory/vdp_device.cpp:444-460 | the block path leaves the same RAM and address as the word-by-word path whenever source and destination each stay in one memory |
| `Dma.CopiesTheSource` | src/sega/memory/vdp_device.cpp:437-460 | a transfer from a RAM leaves exactly the RAM's bytes at the destination, on either path |
| `Dma.OutOfBoundsExactly` | src/sega/memory/vdp_device.cpp:452-460 | from one source device the word-by-word path writes outside if and only if the copy is longer than what is left and cannot wrap: the two small RAMs, or VRAM from an odd address |
| `Dma.WordCopyWraps` | src/sega/memory/vdp_device.cpp:452-460 | into VRAM from an even address it goes round to address zero as often as it has to; every byte is the last one sent there or what was there |
| `Dma.SmallRamPathsAgreeExactly` | src/sega/memory/vdp_device.cpp:444-460 | for VSRAM and CRAM the two paths agree if and only if the copy fits, or starts behind the end, where neither has a defined effect |
| `Dma.VramPathsAgreeExactly` | src/sega/memory/vdp_device.cpp:444-460 | for VRAM they agree if and only if the copy fits, or starts at an even address and every byte sent past the end is what the block leaves at the start of the RAM |
| `Dma.CramPathsDiffer` | src/sega/memory/vdp_device.cpp:445-459 | two words to the last word of CRAM: cut off by one path, written outside by the other |
| `Dma.VramPathsDiffer` | src/sega/memory/vdp_device.cpp:445-459 | two words to the last word of VRAM: cut off by one path, wrapped to address zero by the other |
| `Dma.FillCoversExactly` | src/sega/memory/vdp_device.cpp:490-493 | a VRAM fill changes exactly start + i increment modulo 65536 and ends at the next such address |
| `Dma.TransferBlock` | src/sega/memory/vdp_device.cpp:445-451 | the block path |
| `Dma.TransferWords` | src/sega/memory/vdp_device.cpp:452-460 | the word-by-word path, stopping at the first unmapped word |
| `Dma.TransferFill` | src/sega/memory/vdp_device.cpp:475-494 | the fill, with the low address bit flipped for increments above one |
| `Dma.FillStartsInTheWord` | src/sega/memory/vdp_device.cpp:475-494 | it starts in the addressed word, at its other byte exactly for increments above one |
| `VdpRegisters.SetAgrees` | src/sega/memory/vdp_device.cpp:507-764 | writing any register keeps every cached field equal to what its register decodes to, DMA length and source assembled in any order included |
| `VdpRegisters.SetCaches` | src/sega/memory/vdp_device.cpp:583-764 | a write makes that register's cached fields its decoding |
| `VdpRegisters.SetFrames` | src/sega/memory/vdp_device.cpp:583-764 | and leaves those of the other registers alone |
| `VdpRegisters.ReplayDecodes` | src/sega/memory/vdp_device.cpp:309-313 | replaying a register file over any cached fields gives exactly the decoding of the file |
| `VdpRegisters.DecodedExactly` | src/sega/memory/vdp_device.cpp:507-764 | agreeing cached fields are the full decoding if and only if mode 2, mode 4 and plane size were written |
| `VdpSetup.MeansExactly` | src/sega/memory/vdp_device.cpp:170-290 | a register means the wanted settings if and only if its value is the one encoded for them, whatever its spare bits are: mode bits, colours, table addresses, scroll modes, plane size, window splits, DMA length, source and type |
| `VdpSetup.DecodesEncoded` | src/sega/memory/vdp_device.cpp:583-764 | the encoded register file decodes to the wanted settings |
| `VdpSetup.CommandSets` | src/sega/memory/vdp_device.cpp:507-581 | the control word for one register leaves exactly the wanted fields of it, and everything else alone |
| `VdpSetup.SetupSets` | src/sega/memory/vdp_device.cpp:388-581 | sending the words for wanted settings, to a processor in any state, leaves exactly these settings and changes nothing but its registers |
| `VdpSetup.SettableExactly` | src/sega/memory/vdp_device.cpp:583-764 | the encoder reaches all the settings there are: some register file with a defined plane size decodes to them if and only if they can be asked for |
| `Vdp.StepConsistent` | src/sega/memory/vdp_device.cpp:388-505 | every port access and restore keeps cached fields and registers consistent |
| `Vdp.ReachableConsistent` | src/sega/memory/vdp_device.cpp:388-581 | so they are consistent in every reachable state |
| `Vdp.RunTouches` | src/sega/memory/vdp_device.cpp:507-581 | the cached geometry fields tell exactly which of the three registers a run has written |
| `Vdp.RestoreOfDump` | src/sega/memory/vdp_device.cpp:300-318 | applying a dump to any device gives it the registers and RAMs and their decoding, and keeps the pending half-command, RAM selection, address and DMA flag |
| `Vdp.RestoresCachedFieldsExactly` | src/sega/memory/vdp_device.cpp:300-318 | after any run from power-on the cached fields survive save and restore if and only if the three registers were written |
| `Vdp.CommandSelects` | src/sega/memory/vdp_device.cpp:393-465 | the two command words for a RAM and address select exactly these, arm DMA when asked and allowed, and leave nothing pending; the spare bits of the second word do not matter |
| `Vdp.SelectsExactly` | src/sega/memory/vdp_device.cpp:400-425 | a pair of words selects a RAM if and only if its code bits are those of a read or a write of that RAM |
| `VdpTransfers.WordsArrive` | src/sega/memory/vdp_device.cpp:498-504 | words written to the data port with an increment of two stand one behind the other, high bytes first |
| `VdpTransfers.TransferArrives` | src/sega/memory/vdp_device.cpp:393-465 | from the command words on: a transfer brings twice as many bytes as the length register counts from twice the source register to the selected RAM and address, and nothing else changes |
| `VdpTransfers.FillArrives` | src/sega/memory/vdp_device.cpp:393-496 | from the command words on: a fill gives the low byte of the word to exactly the addresses an increment apart, twice as many as the length register counts |
| `Vdp.VdpDevice.constructor` | src/sega/memory/vdp_device.cpp:293-298 | power-on state |
| `Vdp.VdpDevice.ProcessRegister` | src/sega/memory/vdp_device.cpp:507-581 | register and cached fields change together; an unknown register changes nothing |
| `Vdp.VdpDevice.TransferFromBus` | src/sega/memory/vdp_device.cpp:437-460 | the path the increment selects, on the selected RAM |
| `Vdp.VdpDevice.ProcessControl` | src/sega/memory/vdp_device.cpp:388-467 | the control port is the command state machine, error returns with their half-updated state included |
| `Vdp.VdpDevice.FillArmed` | src/sega/memory/vdp_device.cpp:475-496 | the armed fill over the selected RAM, disarmed when done |
| `Vdp.VdpDevice.StoreWord` | src/sega/memory/vdp_device.cpp:498-502 | both bytes of a word, or nothing when the second one does not fit |
| `Vdp.VdpDevice.ProcessData` | src/sega/memory/vdp_device.cpp:469-505 | the data port: armed fill, or a word stored if it fits, address moved either way |
| `Vdp.VdpDevice.ReadData` | src/sega/memory/vdp_device.cpp:320-336 | the bytes at the address, which moves by one each |
| `Vdp.VdpDevice.DumpState` | src/sega/memory/vdp_device.cpp:300-307 | registers, then the three RAMs |
| `Vdp.VdpDevice.ApplyState` | src/sega/memory/vdp_device.cpp:309-318 | replays the registers, then copies register file and RAMs |
| `Vdp.VdpDevice.CopyOver` | src/sega/memory/vdp_device.cpp:314-317 | a part of the dump replaces a whole RAM |
| `StateDump.LoadOfSave` | src/sega/state_dump/state_dump.cpp:67-143 | loading a saved file into any machine: complete (with anything after it) it restores all it holds; cut off anywhere it is rejected after replacing exactly the parts whose chunks are complete |
| `StateDump.ChunkReadsBack` | src/sega/state_dump/state_dump.cpp:26-44 | a chunk reads back exactly when all of it is there |
| `StateDump.MagicIsTheName` | src/sega/state_dump/state_dump.cpp:21 | the magic is the format's name and version |
| `StateDump.SaveThenLoadExactly` | src/sega/state_dump/state_dump.cpp:67-143 | after any run, save then load restores CPU registers, both RAMs, video RAMs, video registers and cached fields if and only if mode 2, mode 4 and plane size were written |
| `StateDump.Dumper.SaveState` | src/sega/state_dump/state_dump.cpp:67-92 | magic and the four chunks in order |
| `StateDump.Dumper.LoadState` | src/sega/state_dump/state_dump.cpp:94-143 | every chunk applied before the next is read, so a bad file leaves earlier parts replaced |
| `StateDump.Dumper.Overlay` | src/sega/memory/m68k_ram_device.cpp:23-26 | as many bytes as both have are replaced |
| `PlaneDraw.DrawPlane` | src/sega/video/plane.cpp:48-90 | afterwards every pixel of the plane has its gathered colour, flips and transparency included, and the rest of the canvas is untouched |
| `PlaneDraw.DrawTile` | src/sega/video/plane.cpp:50-88 | one tile: the running pointer visits its 64 pixels in order |
| `PlaneDraw.PutPixel` | src/sega/video/plane.cpp:73-86 | four bytes of one pixel change, all zero for the transparent colour |
| `PlaneDraw.OrderInjective` | src/sega/video/plane.cpp:59-64 | no pixel is drawn twice |
| `PlaneDraw.DrawnInOrder` | src/sega/video/plane.cpp:54-86 | each step draws the pixel whose turn it is in its gathered colour |
| `Video.UnsignedCoordinates` | src/sega/video/video.cpp:141-152 | division and remainder of a possibly negative coordinate in unsigned 64-bit arithmetic are floor division and modulo of the plane size |
| `Video.Scroll` | src/sega/video/video.cpp:94-124 | scrolled coordinates for every mode, or the abort |
| `Video.Locate` | src/sega/video/video.cpp:141-152 | tile and position inside it are those of the wrapped coordinates, the window's halved table included |
| `Video.LookUp` | src/sega/video/video.cpp:154-183 | the entry's priority decides, then the flipped pixel of its tile; an entry behind VRAM has no defined effect |
| `Video.TryDrawPlane` | src/sega/video/video.cpp:71-184 | draws exactly the colour at the wrapped plane position when priority matches and it is not transparent; window region, its halved table, unset sizes and entries behind VRAM included |
| `Video.DrawPriority` | src/sega/video/video.cpp:190-203 | sprites, window, plane A, plane B: the first that draws |
| `Video.RenderersAgree` | src/sega/video/plane.cpp:48-90 | for planes A and B, whose own table lies in VRAM, the drawn canvas holds at the wrapped position the colour one of the two attempts draws, or transparency if neither does |
| `Video.DrawWholePlane` | src/sega/video/plane.cpp:48-90 | drawing a whole plane leaves a canvas that agrees with the other renderer at every screen position |
| `Pictures.EntryReadsBack` | src/sega/video/plane.h:19-32 | a name table entry encoded as tile, flips, palette and priority from the lowest bit up reads back |
| `Pictures.TileReadsBack` | src/sega/video/plane.cpp:66-86 | a tile packed two pixels to a byte, the left one in the high half, reads back pixel by pixel |
| `Pictures.PlaneShows` | src/sega/video/plane.cpp:50-86 | a plane pixel has the colour that the encoded entry and tile standing there give it |
| `Pictures.FlipMirrorsColumns` | src/sega/video/plane.cpp:59-64 | adding 0x800 to an entry shows at column x of its tile what was at column 7 - x, rows unchanged |
| `Pictures.FlipMirrorsRows` | src/sega/video/plane.cpp:59-64 | adding 0x1000 mirrors rows and keeps columns |
| `Pictures.ScrollsBy` | src/sega/video/video.cpp:94-124 | a line is scrolled by the big-endian words that stand for it in the two scroll tables, plane A first |
| `Pictures.ScreenShows` | src/sega/video/video.cpp:94-184 | from the encoded picture to the screen: planes A and B show the scrolled and wrapped plane pixel in the colour of its entry and tile, when the entry's priority is asked for |
| `Pictures.WindowShows` | src/sega/video/video.cpp:126-184 | inside its region the window shows the unscrolled pixel of its table, 32 tiles wide for a narrow screen with a plane of 64 |
| `Pictures.CanvasShows` | src/sega/video/plane.cpp:48-90 | the canvas of a whole plane, the window's included, shows the same picture |
| `Video.DrawPixel` | src/sega/video/video.cpp:189-215 | first drawing layer of high priority, then of low, then the background |
| `Video.DrawLine` | src/sega/video/video.cpp:188-216 | one line extends the filled part of the screen by its width |
| `Video.DrawLines` | src/sega/video/video.cpp:187-217 | all lines fill it |
| `Video.Update` | src/sega/video/video.cpp:186-219 | every screen pixel, in raster order, has that colour, or it stops because an attempt aborts or has no defined effect |
| `Video.ReachableSource` | src/sega/video/video.cpp:94-155 | every reachable video processor state, wherever its tables lie, is one the renderers are defined on |
| `Gui.RunKeeps` | src/sega/gui/gui.cpp:130-239 | the protocol invariants hold in every state of every interleaving |
| `Gui.EmulationKeepsFrame` | src/sega/gui/gui.cpp:172-239 | an emulation step keeps the frame invariant, and executes nothing while the frame is held |
| `Gui.MainKeepsFrame` | src/sega/gui/gui.cpp:130-170 | a main step keeps it too and never executes |
| `Gui.EmulationKeepsCondition` | src/sega/gui/gui.cpp:174-222 | an emulation step keeps generations numbering the changes |
| `Gui.MainKeepsCondition` | src/sega/gui/gui.cpp:272-285 | so does every change by the main thread |
| `Gui.NoExecutionWhileHeld` | src/sega/gui/gui.cpp:138-158 | from taking a frame until letting it go, no instruction is executed |
| `Gui.ParkedIsAccountedFor` | src/sega/gui/gui.cpp:224-237 | a waiting emulation thread, awake or asleep, has its frame pending, held or released, or the program is shutting down |
| `Gui.NoLostWakeUp` | src/sega/gui/gui.cpp:154-167 | while the emulation thread sleeps its notification is still to come: the frame is pending or held, or the release of the shutdown comes next |
| `Gui.NearerToWakeUp` | src/sega/gui/gui.cpp:135-167 | every move of the main thread brings a sleeping emulation thread nearer to its wake-up |
| `Gui.WokenInTime` | src/sega/gui/gui.cpp:135-167 | over any interleaving it does not sleep through eight moves of the main thread |
| `Gui.NeverStuck` | src/sega/gui/gui.cpp:130-239 | until the main thread has left, some thread can step without a spurious wake-up, also while one of them sleeps on a condition variable or is being joined |
| `Gui.CompletionClearsItsOwn` | src/sega/gui/gui.cpp:214-222 | a completion clears the condition it ran, unless the generation wrapped around 2^64 changes |
| `Gui.LaterConditionSurvives` | src/sega/gui/gui.cpp:272-285 | a condition set after the snapshot survives every step of the emulation thread |
| `GuiFrames.TakesUp` | src/sega/gui/gui.cpp:174-190 | a condition that is set is taken up, its clock reset exactly when asked for |
| `GuiFrames.RunsUntilItHolds` | src/sega/gui/gui.cpp:174-222 | alone, the emulation thread executes instruction after instruction until the condition holds, then clears it and goes round |
| `GuiFrames.Fails` | src/sega/gui/gui.cpp:197-222 | an instruction that fails ends the condition |
| `GuiFrames.HandsOver` | src/sega/gui/gui.cpp:224-237 | after a vertical blank the frame is offered, the main thread woken, and the emulation thread sleeps |
| `GuiFrames.VblankHandsOver` | src/sega/gui/gui.cpp:207-237 | over any interleaving: after an instruction that ended in a vertical blank the next emulation move makes the frame pending and not yet drawn, the one after it wakes a dozing main thread and parks, and no instruction is executed in between |
| `GuiFrames.NoExecutionBeforeRelease` | src/sega/gui/gui.cpp:130-239 | over any interleaving: once a vertical blank is signalled no instruction is executed before the main thread lets a frame go |
| `GuiFrames.ShowsFrame` | src/sega/gui/gui.cpp:138-158 | a frame on offer is taken, drawn and let go, and a sleeping emulation thread woken |
| `GuiFrames.ShowsNothingNew` | src/sega/gui/gui.cpp:138-158 | without a frame the main thread waits its time and draws the old picture |
| `GuiFrames.Closes` | src/sega/gui/gui.cpp:160-170 | closing the window ends the emulation thread, woken if it sleeps, and then the main thread |
| `GuiFrames.FramesAreShown` | src/sega/gui/gui.cpp:130-239 | a run in which a condition is started, a vertical blank hands over its frame, the main thread holds it while the emulation thread sleeps, and the next instruction is executed after its release |

## Left out

- Addressing modes, and instructions that only move or combine bits (AND, OR, EOR, NOT, CLR, the bit instructions, MOVE, SWAP, EXT, LEA, LINK and others): operands are inputs, and their members would be easy.
- ADDA, SUBA, ADDQ and SUBQ: the same addition and subtraction with other operand forms.
- Decode.InstAt: gives length and control flow of an opcode only, not its operation, and so does the inverse in Assembler.DecodesExactlyTheAssembled, whose instructions name operations only to be told apart; the immediate group's size field 3, which the source declares unreachable, counts as undecodable.
- Analyzer.Analyzer.Run: function names and the static effective addresses recorded for operands are not modelled, because only the text of plain instructions uses them.
- CodeGraph.CoversExactlyTheReachable: a jump whose target is unknown leads nowhere and a call whose target is unknown leads to address zero, as in the source; trap and exception vectors other than the two interrupts are no seeds there either.
- Machine.RunIsCovered: indirect transfers that go to no known function, branches to address zero and exceptions raised by instructions end a run instead of continuing it.
- Lifter.EmitFunction: text other than labels and control-flow statements (operations, flags, headers, names) is represented by the comment of each instruction.
- Lifted.TextIsTheMachine: is about control flow; that the operations of the emitted text equal the interpreter's is not claimed, since they call a runtime that is not part of this model and several are simplified there. DBcc with condition True branches freely here; its counter is treated in Branch.EmittedAgreesExactly.
- Frames.Machine.PopStack: what a pop outside the work RAM reads, and whether the vertical-blank entry's pushes there are accepted, are inputs, and what a push there does to another device is not followed; an access that straddles the end of the RAM, which the source does not check, counts as outside. RTR and the mode switch of MOVE to SR are left out.
- Frames.Machine.CheckInterrupt: wall-clock time is an input; only the vertical blank is checked, as in the source.
- Limbs.ExecuteChain: the limbs come from and go to sequences; the loop of the program that fetches them from memory is not modelled.
- Movem.StoreMultiple: the forms with a control address instead of predecrement or postincrement are left out.
- Bus.BusDevice.Read: only devices that read like memory (ROM and RAM); controllers, sound chips and the processor ports are left out, and so are bus writes to them.
- Dma.OutOfBoundsExactly: a write outside a RAM, which the source does not check, ends the transfer as an outcome without further effect; the comparison of the two paths is for sources inside one device.
- Vdp.VdpDevice.ReadData: the status register and the counters of the video processor are left out; registers that only log carry no cached field.
- StateDump.Dumper.SaveState: files are byte sequences, and the register record is its 76 bytes.
- Video.Update: a table entry behind the video RAM, which the source reads unchecked, is an outcome without a colour; the sprites' pixels are an input, because nothing in the source bounds a cyclic sprite list; the colour tables are an input too.
- Gui.WokenInTime: bounds the sleep by moves of the main thread and promises nothing about a main thread that does not run. An emulation loop whose condition never holds and that meets no vertical blank does not notice a shutdown. The audio thread, input and the windows that read state without a lock are left out.
- OpenGL, windows, image export, sound generation, the Z80, controllers, presets and the configuration reader: foreign calls, input and output, or easy.

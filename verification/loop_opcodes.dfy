/** The three instructions of the example programs: NOP, and BRA and Bcc to their own address. */
module LoopOpcodes {
  import opened Words
  import opened Decode
  import opened Assembler

  const NOP: Word := 0x4E71

  /** Branch number c (0 is BRA, 1 is BSR, 6 is BNE) by minus two bytes. */
  function BranchToItself(c: Digit): Word {
    0x60FE + 0x100 * c
  }

  function FlowOfBranch(c: Digit, pc: Long): Flow {
    if c == 0 then Flow.Jump(pc) else if c == 1 then Flow.Call(pc) else Flow.Branch(pc)
  }

  lemma OneWordStands(rom: seq<Byte>, pc: Long, i: Instruction)
    requires RomWord(rom, pc) == Opcode(i) && BehindOpcode(i) == []
    ensures ReadsAt(rom, pc, Assemble(i)) && |Assemble(i)| == 1
  {
  }

  /** The opcode decodes to a branch to its own address. */
  lemma DecodesBranch(rom: seq<Byte>, pc: Long, c: Digit)
    requires pc + 2 < 0x1_0000_0000 && RomWord(rom, pc) == BranchToItself(c)
    ensures InstAt(rom, pc) == Some(Inst(pc, pc + 2, FlowOfBranch(c, pc)))
  {
    hide RomWord, InstAt, ReadsAt;
    var i := Bcc(c, 0xFE);
    assert Opcode(i) == BranchToItself(c);
    OneWordStands(rom, pc, i);
    DecodesAssembled(rom, pc, i);
    assert Signed(0xFE, ByteSize) == -2;
  }

  /** The opcode decodes to an instruction that goes straight on. */
  lemma DecodesNop(rom: seq<Byte>, pc: Long)
    requires pc + 2 < 0x1_0000_0000 && RomWord(rom, pc) == NOP
    ensures InstAt(rom, pc) == Some(Inst(pc, pc + 2, Plain))
  {
    hide RomWord, InstAt, ReadsAt;
    assert Opcode(Nop) == NOP;
    OneWordStands(rom, pc, Nop);
    DecodesAssembled(rom, pc, Nop);
  }
}

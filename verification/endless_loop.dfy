/** A program that recompiles soundly: a conditional branch to itself, and after it a branch to
    itself.  It shows that what the recompiler's theorems ask for can be met, the condition on
    fallthroughs included. */
module EndlessLoop {
  import opened Words
  import opened Decode
  import opened CodeGraph
  import opened Lifter
  import opened Machine
  import opened Lifted
  import opened LoopOpcodes

  /** BNE.S to itself at address 0, BRA.S to itself at address 2. */
  const ROM: seq<Byte> := [0x66, 0xFE, 0x60, 0xFE]
  const PROGRAM := Program(ROM, [], [0])
  const BNE := Inst(0, 2, Flow.Branch(0))
  const BRA := Inst(2, 4, Flow.Jump(2))
  const LOOP := Block(0, [BNE], Exit.Branch, 0, 2, 0, [])
  const TAIL := Block(2, [BRA], Exit.Jump, 2, 0, 0, [])
  const FUNCTION := Function(0, map[0 := LOOP, 2 := TAIL])
  const FUNCTIONS: map<Long, Function> := map[0 := FUNCTION]
  const TEXT: seq<Item> :=
    [Item.Goto(0), Label(0), Comment(0), GotoIf(0), Label(2), Comment(2), Item.Goto(2), Item.Goto(2)]

  lemma Fetched()
    ensures RomWord(ROM, 0) == BranchToItself(6) && RomWord(ROM, 2) == BranchToItself(0)
  {
  }

  /** The decoder reads the two branches. */
  lemma Decoded()
    ensures InstAt(ROM, 0) == Some(BNE) && InstAt(ROM, 2) == Some(BRA)
  {
    hide InstAt, RomWord, BranchToItself;
    Fetched();
    DecodesBranch(ROM, 0, 6);
    DecodesBranch(ROM, 2, 0);
  }

  lemma Reached()
    ensures Good(PROGRAM, 0) && Good(PROGRAM, 2) && Reach(PROGRAM, 0) && Reach(PROGRAM, 2)
    ensures forall a :: Seed(PROGRAM, a) <==> a == 0
  {
    Decoded();
    hide InstAt, Reach, TableTarget;
    forall a
      ensures Seed(PROGRAM, a) <==> a == 0
    {
      assert a in PROGRAM.knownFunctions <==> a == 0;
    }
    ReachSeed(PROGRAM, 0);
    ReachStep(PROGRAM, 0, 2);
  }

  /** The analysis ends with these two blocks. */
  lemma IsComplete()
    ensures Complete(PROGRAM, FUNCTIONS)
  {
    Reached();
    Decoded();
    hide InstAt, Reach, Seed;
    assert FiledBlock(PROGRAM, 0, LOOP);
    assert FiledBlock(PROGRAM, 2, TAIL);
    assert Traced(PROGRAM, FUNCTION, FUNCTIONS.Keys, []);
  }

  /** The text of the blocks: a goto if the condition holds and nothing for the fallthrough; and
      twice the goto of the last branch, once for the instruction and once for the exit. */
  lemma TextOfBlocks()
    ensures BlockItems(ROM, {0}, 0, LOOP) == [Comment(0), GotoIf(0)]
    ensures BlockItems(ROM, {0}, 0, TAIL) == [Comment(2), Item.Goto(2), Item.Goto(2)]
  {
    Translated();
    hide TranslateInst;
    assert InstItems(ROM, {0}, [BNE]) == [Comment(0)] + [GotoIf(0)] + [];
    assert InstItems(ROM, {0}, [BRA]) == [Comment(2)] + [Item.Goto(2)] + [];
  }

  lemma Translated()
    ensures TranslateInst(ROM, {0}, BNE) == [GotoIf(0)] && TranslateInst(ROM, {0}, BRA) == [Item.Goto(2)]
  {
    hide TranslateInst, InstAt;
    Decoded();
    TranslationAgrees(ROM, {0}, BNE);
    TranslationAgrees(ROM, {0}, BRA);
  }

  lemma IsWellLaid()
    ensures WellLaid(PROGRAM, FUNCTIONS)
  {
    TextOfBlocks();
    hide BlockItems;
    assert FUNCTIONS.Keys == {0};
    assert Laid(PROGRAM, {0}, FUNCTION, LOOP);
    assert Laid(PROGRAM, {0}, FUNCTION, TAIL);
  }

  lemma IsItsText()
    ensures IsProgram(PROGRAM, FUNCTIONS, map[0 := TEXT])
  {
    TextOfBlocks();
    hide BlockItems;
    assert FUNCTIONS.Keys == {0};
    assert InOrder(FUNCTION, [0, 2]);
    assert [0, 2][1..] == [2] && [2][1..] == [];
    assert Layout(ROM, {0}, FUNCTION, [2]) == [Label(2)] + BlockItems(ROM, {0}, 0, TAIL) + [];
    assert Layout(ROM, {0}, FUNCTION, [0, 2])
        == [Label(0)] + BlockItems(ROM, {0}, 0, LOOP) + Layout(ROM, {0}, FUNCTION, [2]);
    assert 0 in FUNCTION.blocks;
    assert TEXT == [Item.Goto(0)] + Layout(ROM, {0}, FUNCTION, [0, 2]);
    assert IsText(ROM, {0}, FUNCTION, TEXT);
  }

  /** All conditions of the translation theorem hold together for this program. */
  lemma IsLifted()
    ensures Lifted.Lifted(PROGRAM, FUNCTIONS, map[0 := TEXT])
    ensures FUNCTION.blocks[0].exit == Exit.Branch
  {
    IsComplete();
    IsWellLaid();
    IsItsText();
    hide Complete, WellLaid, IsProgram;
  }
}

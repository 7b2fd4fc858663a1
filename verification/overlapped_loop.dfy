/** A program that does not: a loop entered by falling into it.  The block at the entry runs
    through the loop's instruction, so the loop's own block starts inside it, and what follows
    the entry block in the text is the loop once more instead of the code after it. */
module OverlappedLoop {
  import opened Words
  import opened Decode
  import opened CodeGraph
  import opened Lifter
  import opened Machine
  import opened Lifted
  import opened Fallthrough
  import opened LoopOpcodes
  import opened Recompiler

  /** NOP at address 0, BNE.S to itself at address 2, BRA.S to itself at address 4. */
  const ROM: seq<Byte> := [0x4E, 0x71, 0x66, 0xFE, 0x60, 0xFE]
  const PROGRAM := Program(ROM, [], [0])
  const FIRST := Inst(0, 2, Plain)
  const BNE := Inst(2, 4, Flow.Branch(2))
  const BRA := Inst(4, 6, Flow.Jump(4))
  const HEAD := Block(0, [FIRST, BNE], Exit.Branch, 2, 4, 0, [])
  const LOOP := Block(2, [BNE], Exit.Branch, 2, 4, 0, [])
  const TAIL := Block(4, [BRA], Exit.Jump, 4, 0, 0, [])
  const FUNCTION := Function(0, map[0 := HEAD, 2 := LOOP, 4 := TAIL])
  const FUNCTIONS: map<Long, Function> := map[0 := FUNCTION]
  const TEXT: seq<Item> :=
    [Item.Goto(0), Label(0), Comment(0), Comment(2), GotoIf(2), Label(2), Comment(2), GotoIf(2),
     Label(4), Comment(4), Item.Goto(4), Item.Goto(4)]
  const TEXTS: Texts := map[0 := TEXT]

  lemma Fetched()
    ensures RomWord(ROM, 0) == NOP && RomWord(ROM, 2) == BranchToItself(6) && RomWord(ROM, 4) == BranchToItself(0)
  {
  }

  lemma Decoded()
    ensures InstAt(ROM, 0) == Some(FIRST) && InstAt(ROM, 2) == Some(BNE) && InstAt(ROM, 4) == Some(BRA)
  {
    hide InstAt, RomWord, BranchToItself;
    Fetched();
    DecodesNop(ROM, 0);
    DecodesBranch(ROM, 2, 6);
    DecodesBranch(ROM, 4, 0);
  }

  lemma Reached()
    ensures Good(PROGRAM, 0) && Good(PROGRAM, 2) && Good(PROGRAM, 4)
    ensures Reach(PROGRAM, 0) && Reach(PROGRAM, 2) && Reach(PROGRAM, 4)
    ensures forall a :: Seed(PROGRAM, a) <==> a == 0
  {
    Decoded();
    hide InstAt, Reach, TableTarget;
    forall a
      ensures Seed(PROGRAM, a) <==> a == 0
    {
      assert a in PROGRAM.knownFunctions <==> a == 0;
    }
    ReachSeed(PROGRAM, 0);
    ReachStep(PROGRAM, 0, 2);
    ReachStep(PROGRAM, 2, 4);
  }

  lemma Filed()
    ensures FiledBlock(PROGRAM, 0, HEAD) && FiledBlock(PROGRAM, 2, LOOP) && FiledBlock(PROGRAM, 4, TAIL)
  {
    Reached();
    Decoded();
    hide InstAt, Reach, Seed;
  }

  /** The analysis ends with these three blocks. */
  lemma IsComplete()
    ensures Complete(PROGRAM, FUNCTIONS)
  {
    Reached();
    Filed();
    hide Good, Reach, Seed, FiledBlock;
    assert Traced(PROGRAM, FUNCTION, FUNCTIONS.Keys, []);
  }

  lemma TextOfBlocks()
    ensures BlockItems(ROM, {0}, 0, HEAD) == [Comment(0), Comment(2), GotoIf(2)]
    ensures BlockItems(ROM, {0}, 0, LOOP) == [Comment(2), GotoIf(2)]
    ensures BlockItems(ROM, {0}, 0, TAIL) == [Comment(4), Item.Goto(4), Item.Goto(4)]
  {
    Translated();
    hide TranslateInst;
    assert InstItems(ROM, {0}, [BNE]) == [Comment(2)] + [GotoIf(2)] + [];
    assert [FIRST, BNE][1..] == [BNE];
    assert InstItems(ROM, {0}, [FIRST, BNE]) == [Comment(0)] + [] + InstItems(ROM, {0}, [BNE]);
    assert InstItems(ROM, {0}, [BRA]) == [Comment(4)] + [Item.Goto(4)] + [];
  }

  lemma Translated()
    ensures TranslateInst(ROM, {0}, FIRST) == [] && TranslateInst(ROM, {0}, BNE) == [GotoIf(2)]
    ensures TranslateInst(ROM, {0}, BRA) == [Item.Goto(4)]
  {
    hide TranslateInst, InstAt;
    Decoded();
    TranslationAgrees(ROM, {0}, FIRST);
    TranslationAgrees(ROM, {0}, BNE);
    TranslationAgrees(ROM, {0}, BRA);
  }

  lemma IsItsText()
    ensures IsProgram(PROGRAM, FUNCTIONS, TEXTS)
  {
    LaidOut();
    hide Layout;
    assert FUNCTIONS.Keys == {0};
    assert InOrder(FUNCTION, [0, 2, 4]);
    assert 0 in FUNCTION.blocks;
    assert TEXT == [Item.Goto(0)] + Layout(ROM, {0}, FUNCTION, [0, 2, 4]);
    assert IsText(ROM, {0}, FUNCTION, TEXT);
  }

  lemma LaidOut()
    ensures Layout(ROM, {0}, FUNCTION, [0, 2, 4]) == TEXT[1..]
  {
    TextOfBlocks();
    hide BlockItems;
    assert [0, 2, 4][1..] == [2, 4] && [2, 4][1..] == [4] && [4][1..] == [];
    assert Layout(ROM, {0}, FUNCTION, [4]) == [Label(4)] + BlockItems(ROM, {0}, 0, TAIL) + [];
    assert Layout(ROM, {0}, FUNCTION, [2, 4])
        == [Label(2)] + BlockItems(ROM, {0}, 0, LOOP) + Layout(ROM, {0}, FUNCTION, [4]);
    assert Layout(ROM, {0}, FUNCTION, [0, 2, 4])
        == [Label(0)] + BlockItems(ROM, {0}, 0, HEAD) + Layout(ROM, {0}, FUNCTION, [2, 4]);
  }

  lemma IsFilled()
    ensures Filled(PROGRAM, FUNCTIONS, TEXTS, 0)
  {
    Filed();
    IsItsText();
    hide FiledBlock, IsProgram;
  }

  /** What follows the entry block is the loop's block, not the code after the loop. */
  lemma LoopComesNext(rest: seq<Item>)
    requires Following(FUNCTION, 0, rest)
    ensures rest != [] && rest[0].at == 2
    ensures !FallthroughNext(FUNCTION, 0, 4)
  {
    assert 2 in FUNCTION.blocks;
  }

  lemma MachineLeavesTheLoop()
    ensures Follows(PROGRAM, FUNCTIONS.Keys, State(0, []), [0, 2, 4])
  {
    hide Good, Follows, InstAt, Reach;
    Reached();
    Filed();
    MachineNext(PROGRAM, FUNCTIONS.Keys, FUNCTION, 0, 4);
    assert [FIRST, BNE][1..] == [BNE];
    assert Addrs([FIRST, BNE]) + [4] == [0, 2, 4];
  }

  lemma TextStaysInTheLoop()
    ensures TEXT[1] == Label(0) && After(TEXTS[0], 0).Some?
    ensures !ExecutesNext(FUNCTIONS, TEXTS, 0, 0, 4)
  {
    hide Filled, Following, BlockItems, ExecutesNext;
    IsFilled();
    var rest := Find(TEXTS);
    LoopComesNext(rest);
    TextNext(PROGRAM, FUNCTIONS, TEXTS, 0, 0, 4, rest);
  }

  lemma Find(prog: Texts) returns (rest: seq<Item>)
    requires Filled(PROGRAM, FUNCTIONS, prog, 0)
    ensures 0 in prog && Following(FUNCTION, 0, rest)
    ensures After(prog[0], 0) == Some(BlockItems(ROM, FUNCTIONS.Keys, 0, HEAD) + rest)
  {
    hide Following, BlockItems, FiledBlock, IsProgram;
    rest := FindFilled(PROGRAM, FUNCTIONS, prog, 0, 0);
  }

  /** From the start of the text the first leg is the goto to the entry. */
  lemma {:induction false} EntryLeg(choices: seq<Choice>)
    requires choices != []
    ensures After(TEXTS[0], 0).Some?
    ensures Trace(TEXTS, Thread(Frame(0, TEXT), []), choices) == Trace(TEXTS, StandingAt(TEXTS, 0, 0), choices[1..])
  {
    hide Run, After;
    FirstLeg(choices[0].taken);
    assert TEXTS[0] == TEXT;
    var more := Trace(TEXTS, StandingAt(TEXTS, 0, 0), choices[1..]);
    assert [] + more == more;
  }

  lemma FirstLeg(taken: bool)
    ensures Run(TEXT, taken) == Leg([], Arrive(0)) && After(TEXT, 0).Some?
  {
    assert TEXT[0] == Item.Goto(0) && TEXT[1..][0] == Label(0);
  }

  /** No execution of the text from its start gets there. */
  lemma NeverAfterTheLoop(choices: seq<Choice>)
    requires Resolved(FUNCTIONS, choices)
    ensures !([0, 2, 4] <= Trace(TEXTS, Thread(Frame(0, TEXT), []), choices))
  {
    TextStaysInTheLoop();
    HeadAddresses();
    if choices != [] {
      EntryLeg(choices);
      NotFromTheLabel(choices[1..]);
      hide Trace;
    }
  }

  lemma NotFromTheLabel(choices: seq<Choice>)
    requires Resolved(FUNCTIONS, choices) && After(TEXTS[0], 0).Some? && !ExecutesNext(FUNCTIONS, TEXTS, 0, 0, 4)
    ensures !([0, 2, 4] <= Trace(TEXTS, StandingAt(TEXTS, 0, 0), choices))
  {
    HeadAddresses();
    assert Addrs(FUNCTIONS[0].blocks[0].insts) + [4] == [0, 2, 4];
    hide Trace;
  }

  lemma HeadAddresses()
    ensures Addrs(HEAD.insts) == [0, 2]
  {
    assert [FIRST, BNE][1..] == [BNE];
  }

  /** The code after the loop is lost: the machine can leave the loop as soon as it has fallen
      into it, the text cannot. */
  lemma IsMistranslated()
    ensures Follows(PROGRAM, FUNCTIONS.Keys, State(0, []), [0, 2, 4])
    ensures !Executes(FUNCTIONS, TEXTS, 0, [0, 2, 4])
    ensures !SameMeaning(PROGRAM, FUNCTIONS, TEXTS)
  {
    hide Follows, Trace, Addrs;
    MachineLeavesTheLoop();
    forall choices | Resolved(FUNCTIONS, choices)
      ensures !([0, 2, 4] <= Trace(TEXTS, Thread(Frame(0, TEXT), []), choices))
    {
      NeverAfterTheLoop(choices);
    }
    assert TEXTS[0] == TEXT && 0 in FUNCTIONS;
  }
}

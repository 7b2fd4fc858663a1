/** The one exit for which the lifter emits no goto: the fallthrough of a conditional branch
    (src/recomp/lifter.cpp:141-143).  Here is exactly when the text that follows is right. */
module Fallthrough {
  import opened Words
  import opened Decode
  import opened CodeGraph
  import opened Lifter
  import opened Machine
  import opened Lifted

  function Last(b: Block): Inst
    requires b.insts != []
  {
    b.insts[|b.insts| - 1]
  }

  /** On the emitted text itself: after a block that ends in a conditional branch not taken,
      control reaches its fallthrough exactly when that is a block and no other block starts
      before it. */
  lemma BranchFallsThroughExactly(p: Program, entries: set<Long>, f: Function, text: seq<Item>, s: Long)
    requires Loadable(p) && IsText(p.rom, entries, f, text) && s in f.blocks && FiledBlock(p, s, f.blocks[s])
    requires f.blocks[s].insts != [] && Last(f.blocks[s]).flow.Branch?
    ensures var after := Last(f.blocks[s]).pcAfter;
            After(text, s).Some?
            && (Run(After(text, s).value, false).out == Arrive(after) <==> FallthroughNext(f, s, after))
  {
    hide Good, Straight, Reach, Run, IsText, BlockItems, Ends, Following;
    var rest := FindBlock(p.rom, entries, f, text, s);
    BranchLeg(p, entries, f, s, rest, false);
    FallsThroughExactly(f, s, Last(f.blocks[s]).pcAfter, rest);
  }

  lemma FollowingIsLabel(f: Function, s: Long, rest: seq<Item>)
    requires Following(f, s, rest)
    ensures rest == [] || (rest[0].Label? && rest[0].at in f.blocks)
  {
  }

  /** The leg through a block that ends in a branch. */
  lemma {:induction false} BranchLeg(p: Program, entries: set<Long>, f: Function, s: Long, rest: seq<Item>, taken: bool)
    requires Loadable(p) && s in f.blocks && FiledBlock(p, s, f.blocks[s]) && Following(f, s, rest)
    requires f.blocks[s].insts != [] && Last(f.blocks[s]).flow.Branch?
    ensures var b := f.blocks[s];
            s < Last(b).pcAfter
            && Run(BlockItems(p.rom, entries, f.entry, b) + rest, taken)
               == Leg(Addrs(b.insts), if taken then Arrive(Last(b).flow.target) else Run(rest, false).out)
  {
    hide Good, Straight, Reach, Run, BlockItems, Ends, Following;
    var b := f.blocks[s];
    FollowingIsLabel(f, s, rest);
    LegOfBlock(p, entries, f, b, rest, taken);
    StraightGrows(p, b.insts, |b.insts| - 1);
  }

  // ---------------------------------------------------------------- on whole executions

  /** The emitted program at the label of a block, with nothing to return to. */
  function StandingAt(prog: Texts, e: Long, s: Long): Thread
    requires e in prog && After(prog[e], s).Some?
  {
    Thread(Frame(e, After(prog[e], s).value), [])
  }

  /** From there it can execute the block and then the instruction at x. */
  ghost predicate ExecutesNext(functions: map<Long, Function>, prog: Texts, e: Long, s: Long, x: Long)
    requires e in functions && s in functions[e].blocks && e in prog && After(prog[e], s).Some?
  {
    exists choices :: Resolved(functions, choices)
      && Addrs(functions[e].blocks[s].insts) + [x] <= Trace(prog, StandingAt(prog, e, s), choices)
  }

  /** A function as the analyser files it, all of whose blocks hold code. */
  ghost predicate Filled(p: Program, functions: map<Long, Function>, prog: Texts, e: Long) {
    Loadable(p) && IsProgram(p, functions, prog) && e in functions
    && forall s :: s in functions[e].blocks ==>
         FiledBlock(p, s, functions[e].blocks[s]) && functions[e].blocks[s].insts != []
  }

  lemma FindFilled(p: Program, functions: map<Long, Function>, prog: Texts, e: Long, s: Long) returns (rest: seq<Item>)
    requires Filled(p, functions, prog, e) && s in functions[e].blocks
    ensures var f := functions[e];
            e in prog && Following(f, s, rest)
            && After(prog[e], s) == Some(BlockItems(p.rom, functions.Keys, f.entry, f.blocks[s]) + rest)
  {
    hide BlockItems, Following, FiledBlock;
    rest := FindBlock(p.rom, functions.Keys, functions[e], prog[e], s);
  }

  /** Text at a label executes the first instruction of the block before anything else. */
  lemma {:induction false} FirstExecuted(p: Program, functions: map<Long, Function>, prog: Texts, e: Long, s: Long,
                                         choices: seq<Choice>)
    requires Filled(p, functions, prog, e) && s in functions[e].blocks && choices != []
    ensures e in prog && After(prog[e], s).Some?
    ensures var trace := Trace(prog, StandingAt(prog, e, s), choices);
            trace != [] && trace[0] == s
  {
    hide Filled, BlockItems, Following, Run, Resume;
    var rest := FindFilled(p, functions, prog, e, s);
    var items := StartsWithComment(p, functions, prog, e, s, rest);
    RunComment(s, items, choices[0].taken);
  }

  lemma StartsWithComment(p: Program, functions: map<Long, Function>, prog: Texts, e: Long, s: Long, rest: seq<Item>)
    returns (items: seq<Item>)
    requires Filled(p, functions, prog, e) && s in functions[e].blocks
    ensures BlockItems(p.rom, functions.Keys, functions[e].entry, functions[e].blocks[s]) + rest == [Comment(s)] + items
  {
    hide Good, Straight, Reach, Ends, TranslateInst, ExitItems, IsProgram;
    var f := functions[e];
    var b := f.blocks[s];
    assert FiledBlock(p, s, b);
    items := TranslateInst(p.rom, functions.Keys, b.insts[0]) + InstItems(p.rom, functions.Keys, b.insts[1..])
             + ExitItems(functions.Keys, f.entry, b) + rest;
  }

  lemma {:induction false} Prefixed(addrs: seq<Long>, x: Long, more: seq<Long>)
    ensures addrs + [x] <= addrs + more <==> more != [] && more[0] == x
  {
    if more != [] {
      assert addrs + more == addrs + [more[0]] + more[1..];
      assert (addrs + [x])[|addrs|] == x && (addrs + more)[|addrs|] == more[0];
    }
  }

  /** A leg that arrives at a label, and what is executed after it. */
  lemma {:induction false} GoesTo(p: Program, functions: map<Long, Function>, prog: Texts, e: Long, s: Long,
                                  choices: seq<Choice>, l: Long, x: Long)
    requires Filled(p, functions, prog, e) && s in functions[e].blocks && l in functions[e].blocks && choices != []
    requires e in prog && After(prog[e], s).Some?
    requires Run(After(prog[e], s).value, choices[0].taken) == Leg(Addrs(functions[e].blocks[s].insts), Arrive(l))
    ensures Addrs(functions[e].blocks[s].insts) + [x] <= Trace(prog, StandingAt(prog, e, s), choices)
            <==> |choices| > 1 && x == l
  {
    hide FiledBlock, IsProgram, Run, BlockItems, Following;
    var rest := FindFilled(p, functions, prog, e, l);
    var addrs := Addrs(functions[e].blocks[s].insts);
    var more := Trace(prog, StandingAt(prog, e, l), choices[1..]);
    assert Trace(prog, StandingAt(prog, e, s), choices) == addrs + more;
    Prefixed(addrs, x, more);
    if |choices| > 1 {
      FirstExecuted(p, functions, prog, e, l, choices[1..]);
    }
  }

  /** A leg that returns with nothing to return to is the end. */
  lemma {:induction false} EndsThere(prog: Texts, e: Long, s: Long, choices: seq<Choice>, addrs: seq<Long>, x: Long)
    requires e in prog && After(prog[e], s).Some? && choices != []
    requires Run(After(prog[e], s).value, choices[0].taken) == Leg(addrs, Returned)
    ensures !(addrs + [x] <= Trace(prog, StandingAt(prog, e, s), choices))
  {
    assert Trace(prog, StandingAt(prog, e, s), choices) == addrs + [];
    Prefixed(addrs, x, []);
    hide Run;
  }

  /** After a branch block the text goes to the target or to whatever block comes next. */
  lemma {:induction false} TextNext(p: Program, functions: map<Long, Function>, prog: Texts, e: Long, s: Long,
                                    x: Long, rest: seq<Item>)
    requires Filled(p, functions, prog, e) && s in functions[e].blocks
    requires IsBranchTo(functions[e], s)
    requires var f := functions[e];
             Following(f, s, rest) && e in prog
             && After(prog[e], s) == Some(BlockItems(p.rom, functions.Keys, f.entry, f.blocks[s]) + rest)
    ensures ExecutesNext(functions, prog, e, s, x)
            <==> x == Last(functions[e].blocks[s]).flow.target || (rest != [] && x == rest[0].at)
  {
    hide Good, Straight, Reach, Run, BlockItems, Ends, Following, IsText, Trace;
    var f := functions[e];
    var b := f.blocks[s];
    FollowingIsLabel(f, s, rest);
    BranchLeg(p, functions.Keys, f, s, rest, true);
    BranchLeg(p, functions.Keys, f, s, rest, false);
    NotTaken(rest);
    hide FiledBlock;
    forall choices: seq<Choice> | choices != []
      ensures Addrs(b.insts) + [x] <= Trace(prog, StandingAt(prog, e, s), choices)
              <==> |choices| > 1 && if choices[0].taken then x == Last(b).flow.target else rest != [] && x == rest[0].at
    {
      if choices[0].taken {
        GoesTo(p, functions, prog, e, s, choices, Last(b).flow.target, x);
      } else if rest != [] {
        GoesTo(p, functions, prog, e, s, choices, rest[0].at, x);
      } else {
        EndsThere(prog, e, s, choices, Addrs(b.insts), x);
      }
    }
    NothingWithoutChoices(prog, StandingAt(prog, e, s), Addrs(b.insts), x);
    var two := [Choice(x == Last(b).flow.target, e), Choice(false, e)];
    assert Resolved(functions, two);
  }

  lemma NotTaken(rest: seq<Item>)
    requires rest == [] || rest[0].Label?
    ensures Run(rest, false).out == if rest == [] then Returned else Arrive(rest[0].at)
  {
  }

  lemma {:induction false} NothingWithoutChoices(prog: Texts, t: Thread, addrs: seq<Long>, x: Long)
    ensures !(addrs + [x] <= Trace(prog, t, []))
  {
  }

  /** The block ends in a conditional branch whose target has a label. */
  ghost predicate IsBranchTo(f: Function, s: Long)
    requires s in f.blocks
  {
    f.blocks[s].insts != [] && Last(f.blocks[s]).flow.Branch? && Last(f.blocks[s]).flow.target in f.blocks
  }

  /** The machine goes to the target or falls through. */
  lemma {:induction false} MachineNext(p: Program, entries: set<Long>, f: Function, s: Long, x: Long)
    requires Loadable(p) && s in f.blocks && FiledBlock(p, s, f.blocks[s]) && IsBranchTo(f, s)
    requires Good(p, Last(f.blocks[s]).pcAfter) && Good(p, Last(f.blocks[s]).flow.target)
    ensures var b := f.blocks[s];
            Follows(p, entries, State(s, []), Addrs(b.insts) + [x])
            <==> x == Last(b).flow.target || x == Last(b).pcAfter
  {
    hide Good, InstAt, Reach, Follows, Step, Straight;
    var b := f.blocks[s];
    var trace := Addrs(b.insts) + [x];
    DecodedLast(p, b);
    BranchSteps(p, entries, Last(b));
    if Follows(p, entries, State(s, []), trace) {
      var next := StraightFollowed(p, entries, b.insts, [], trace);
      assert trace[|b.insts|..] == [x];
      FollowsFirst(p, entries, next, [x]);
    }
    if x == Last(b).flow.target || x == Last(b).pcAfter {
      FollowsHere(p, entries, State(x, []));
      FollowStraight(p, entries, b.insts, [], [x], State(x, []));
    }
  }

  lemma BranchSteps(p: Program, entries: set<Long>, last: Inst)
    requires Good(p, last.pcBefore) && InstAt(p.rom, last.pcBefore) == Some(last) && last.flow.Branch?
    ensures forall next :: Step(p, entries, State(last.pcBefore, []), next)
              <==> next == State(last.flow.target, []) || next == State(last.pcAfter, [])
  {
    hide Good, InstAt;
  }

  lemma FollowsFirst(p: Program, entries: set<Long>, m: State, trace: seq<Long>)
    requires Follows(p, entries, m, trace) && trace != []
    ensures trace[0] == m.pc
  {
  }

  lemma FollowsHere(p: Program, entries: set<Long>, m: State)
    requires Good(p, m.pc)
    ensures Follows(p, entries, m, [m.pc])
  {
  }

  /** From the label of a block that ends in a conditional branch, with every goto having its
      label and code to go on with, text and machine can execute the same next instructions if
      and only if the fallthrough is a block and no other block starts before it. */
  lemma {:induction false} BranchTranslatedExactly(p: Program, functions: map<Long, Function>, prog: Texts, e: Long,
                                                   s: Long)
    requires Filled(p, functions, prog, e) && s in functions[e].blocks && IsBranchTo(functions[e], s)
    requires Good(p, Last(functions[e].blocks[s]).pcAfter)
    ensures e in prog && After(prog[e], s).Some?
    ensures (forall x :: Follows(p, functions.Keys, State(s, []), Addrs(functions[e].blocks[s].insts) + [x])
                         <==> ExecutesNext(functions, prog, e, s, x))
            <==> FallthroughNext(functions[e], s, Last(functions[e].blocks[s]).pcAfter)
  {
    hide Good, Follows, ExecutesNext, BlockItems, FiledBlock, IsProgram;
    var f := functions[e];
    var b := f.blocks[s];
    var after, target := Last(b).pcAfter, Last(b).flow.target;
    var rest := FindFilled(p, functions, prog, e, s);
    FilledIsGood(p, functions, prog, e, target);
    BranchLeg(p, functions.Keys, f, s, rest, false);
    FollowingIsLabel(f, s, rest);
    forall x
      ensures ExecutesNext(functions, prog, e, s, x) <==> x == target || (rest != [] && x == rest[0].at)
      ensures Follows(p, functions.Keys, State(s, []), Addrs(b.insts) + [x]) <==> x == target || x == after
    {
      TextNext(p, functions, prog, e, s, x, rest);
      MachineNext(p, functions.Keys, f, s, x);
    }
    if FallthroughNext(f, s, after) {
    } else if target != after {
      assert !ExecutesNext(functions, prog, e, s, after);
    } else {
      assert ExecutesNext(functions, prog, e, s, rest[0].at);
    }
  }

  lemma FilledIsGood(p: Program, functions: map<Long, Function>, prog: Texts, e: Long, s: Long)
    requires Filled(p, functions, prog, e) && s in functions[e].blocks
    ensures Good(p, s)
  {
    hide Good, Reach, Ends, IsProgram;
    assert FiledBlock(p, s, functions[e].blocks[s]);
  }
}

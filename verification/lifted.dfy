/** What the emitted text does, and that it does what the machine does.

    A thread of the emitted program is the rest of the text it is executing and the C++ return
    positions below it.  It runs in legs: from where it is to the next jump, call or return. */
module Lifted {
  import opened Words
  import opened Decode
  import opened CodeGraph
  import opened Lifter
  import opened Machine

  /** How a leg ends.  Falling off the end of a C++ function returns from it. */
  datatype Out =
    | Arrive(at: Long)
    | Tail(target: Long)
    | CallOut(target: Long, rest: seq<Item>)
    | CallAny(rest: seq<Item>)
    | Dispatched
    | Returned

  datatype Leg = Leg(addrs: seq<Long>, out: Out)

  /** The stretch up to the next transfer, given how a conditional goto decides, with the
      instructions passed on the way. */
  function Run(items: seq<Item>, taken: bool): Leg
    decreases |items|
  {
    if items == [] then Leg([], Returned)
    else
      var rest := items[1..];
      match items[0]
      case Label(at) => Leg([], Arrive(at))
      case Comment(at) => var leg := Run(rest, taken); Leg([at] + leg.addrs, leg.out)
      case Goto(target) => Leg([], Arrive(target))
      case GotoIf(target) => if taken then Leg([], Arrive(target)) else Run(rest, taken)
      case Push(_) => Run(rest, taken)
      case CallFunction(target) => Leg([], CallOut(target, rest))
      case CallAddress => Leg([], CallAny(rest))
      case TailCall(target) => Leg([], Tail(target))
      case Dispatch => Leg([], Dispatched)
      case Leave => Leg([], Returned)
  }

  /** The text after a label. */
  function After(items: seq<Item>, at: Long): Option<seq<Item>>
    decreases |items|
  {
    if items == [] then None
    else if items[0] == Label(at) then Some(items[1..])
    else After(items[1..], at)
  }

  datatype Frame = Frame(fn: Long, items: seq<Item>)

  datatype Thread = Thread(at: Frame, stack: seq<Frame>)

  /** What is decided outside the text: which way a condition goes and what address a register
      holds. */
  datatype Choice = Choice(taken: bool, target: Long)

  function PopFrame(stack: seq<Frame>): Option<Thread> {
    if stack == [] then None else Some(Thread(stack[|stack| - 1], stack[..|stack| - 1]))
  }

  /** Call a function by address; an address without a function returns at once. */
  function Invoke(prog: Texts, target: Long, stack: seq<Frame>): Option<Thread> {
    if target in prog then Some(Thread(Frame(target, prog[target]), stack)) else PopFrame(stack)
  }

  function Resume(prog: Texts, t: Thread, c: Choice, out: Out): Option<Thread> {
    match out
    case Arrive(l) =>
      var items := if t.at.fn in prog then After(prog[t.at.fn], l) else None;
      (match items
       case Some(rest) => Some(Thread(Frame(t.at.fn, rest), t.stack))
       case None => None)
    case Tail(target) => Invoke(prog, target, t.stack)
    case CallOut(target, rest) => Invoke(prog, target, t.stack + [Frame(t.at.fn, rest)])
    case CallAny(rest) => Invoke(prog, c.target, t.stack + [Frame(t.at.fn, rest)])
    case Dispatched => Invoke(prog, c.target, t.stack)
    case Returned => PopFrame(t.stack)
  }

  /** The instructions a thread executes, with one choice for every leg. */
  function Trace(prog: Texts, t: Thread, choices: seq<Choice>): seq<Long>
    decreases |choices|
  {
    if choices == [] then []
    else
      var leg := Run(t.at.items, choices[0].taken);
      leg.addrs + match Resume(prog, t, choices[0], leg.out)
                  case Some(next) => Trace(prog, next, choices[1..])
                  case None => []
  }

  // ---------------------------------------------------------------- finding a block in the text

  predicate NoLabel(items: seq<Item>) {
    forall i :: 0 <= i < |items| ==> !items[i].Label?
  }

  lemma {:induction false} AfterSkips(one: seq<Item>, other: seq<Item>, at: Long)
    requires forall i :: 0 <= i < |one| ==> one[i] != Label(at)
    ensures After(one + other, at) == After(other, at)
    decreases |one|
  {
    if one == [] {
      assert one + other == other;
    } else {
      assert (one + other)[0] == one[0];
      assert (one + other)[1..] == one[1..] + other;
      AfterSkips(one[1..], other, at);
    }
  }

  lemma {:induction false} InstItemsHaveNoLabel(rom: seq<Byte>, entries: set<Long>, insts: seq<Inst>)
    ensures NoLabel(InstItems(rom, entries, insts))
    decreases |insts|
  {
    hide Matches, RomWord, Bits;
    if insts != [] {
      InstItemsHaveNoLabel(rom, entries, insts[1..]);
    }
  }

  lemma BlockHasNoLabel(rom: seq<Byte>, entries: set<Long>, entry: Long, b: Block)
    ensures NoLabel(BlockItems(rom, entries, entry, b))
  {
    hide InstItems;
    InstItemsHaveNoLabel(rom, entries, b.insts);
  }

  /** The text that comes after a block: the next higher block start, or nothing. */
  ghost predicate Following(f: Function, s: Long, rest: seq<Item>) {
    if rest == [] then forall other :: other in f.blocks ==> other <= s
    else
      rest[0].Label? && rest[0].at in f.blocks && s < rest[0].at
      && forall other :: other in f.blocks ==> other <= s || rest[0].at <= other
  }

  lemma {:induction false} FindInLayout(rom: seq<Byte>, entries: set<Long>, f: Function, order: seq<Long>, i: nat)
    requires forall j :: 0 <= j < |order| ==> order[j] in f.blocks
    requires forall j, k :: 0 <= j < k < |order| ==> order[j] < order[k]
    requires i < |order|
    ensures After(Layout(rom, entries, f, order), order[i])
            == Some(BlockItems(rom, entries, f.entry, f.blocks[order[i]]) + Layout(rom, entries, f, order[i + 1..]))
    decreases |order|
  {
    hide BlockItems;
    var items := BlockItems(rom, entries, f.entry, f.blocks[order[0]]);
    var more := Layout(rom, entries, f, order[1..]);
    assert Layout(rom, entries, f, order) == [Label(order[0])] + items + more;
    if i == 0 {
      assert ([Label(order[0])] + items + more)[1..] == items + more;
    } else {
      BlockHasNoLabel(rom, entries, f.entry, f.blocks[order[0]]);
      AfterSkips([Label(order[0])] + items, more, order[i]);
      FindInLayout(rom, entries, f, order[1..], i - 1);
      assert order[1..][i - 1] == order[i] && order[1..][i..] == order[i + 1..];
    }
  }

  lemma LayoutFollows(rom: seq<Byte>, entries: set<Long>, f: Function, order: seq<Long>, i: nat)
    requires InOrder(f, order) && i < |order|
    ensures Following(f, order[i], Layout(rom, entries, f, order[i + 1..]))
  {
    hide BlockItems;
    var later := order[i + 1..];
    if later != [] {
      assert later[0] == order[i + 1];
      assert Layout(rom, entries, f, later)[0] == Label(order[i + 1]);
    }
  }

  /** Where the text of a function has a block. */
  lemma FindBlock(rom: seq<Byte>, entries: set<Long>, f: Function, text: seq<Item>, s: Long)
    returns (rest: seq<Item>)
    requires IsText(rom, entries, f, text) && s in f.blocks
    ensures After(text, s) == Some(BlockItems(rom, entries, f.entry, f.blocks[s]) + rest)
    ensures Following(f, s, rest)
  {
    hide BlockItems, Layout, Following;
    var order :| InOrder(f, order)
      && text == (if f.blocks == map[] then [] else [Goto(f.entry)]) + Layout(rom, entries, f, order);
    var i :| 0 <= i < |order| && order[i] == s;
    FindInLayout(rom, entries, f, order, i);
    LayoutFollows(rom, entries, f, order, i);
    AfterSkips([Goto(f.entry)], Layout(rom, entries, f, order), s);
    rest := Layout(rom, entries, f, order[i + 1..]);
  }

  // ---------------------------------------------------------------- executing a block

  function Addrs(insts: seq<Inst>): (addrs: seq<Long>)
    ensures |addrs| == |insts|
    ensures forall i :: 0 <= i < |insts| ==> addrs[i] == insts[i].pcBefore
  {
    if insts == [] then [] else [insts[0].pcBefore] + Addrs(insts[1..])
  }

  /** The lifter finds the same transfer in an opcode as the analyser did. */
  lemma TranslationAgrees(rom: seq<Byte>, entries: set<Long>, inst: Inst)
    requires InstAt(rom, inst.pcBefore) == Some(inst)
    ensures var items := TranslateInst(rom, entries, inst);
            match inst.flow
            case Plain => items == []
            case Return => items == [Leave]
            case Branch(target) => items == [GotoIf(target)]
            case Jump(target) => items == [Goto(target)] || (items == [TailCall(target)] && target in entries)
            case JumpIndirect => items == [Dispatch]
            case JumpUnknown => items == [Dispatch]
            case Call(target) => items == [Push(inst.pcAfter), CallFunction(target)]
            case CallIndirect => items == [Push(inst.pcAfter), CallAddress]
            case CallUnknown => items == [Push(inst.pcAfter), CallAddress]
  {
    hide Matches, RomWord, ExtensionWords, Bits;
    var w := RomWord(rom, inst.pcBefore);
    assert inst.flow == FlowOf(rom, inst.pcBefore, w, inst.pcAfter);
  }

  lemma RunComment(at: Long, items: seq<Item>, taken: bool)
    ensures var leg := Run(items, taken);
            Run([Comment(at)] + items, taken) == Leg([at] + leg.addrs, leg.out)
  {
    assert ([Comment(at)] + items)[1..] == items;
  }

  lemma StraightRest(p: Program, insts: seq<Inst>)
    requires Straight(p, insts) && |insts| > 1
    ensures Straight(p, insts[1..]) && insts[0].flow.Plain? && insts[1..][|insts| - 2] == insts[|insts| - 1]
    ensures Good(p, insts[0].pcBefore) && InstAt(p.rom, insts[0].pcBefore) == Some(insts[0])
    ensures insts[1].pcBefore == insts[0].pcAfter
  {
    hide Good, InstAt;
  }

  lemma {:induction false} RunStraight(p: Program, entries: set<Long>, insts: seq<Inst>, tail: seq<Item>, taken: bool)
    requires Straight(p, insts) && insts != []
    ensures var end := Run(TranslateInst(p.rom, entries, insts[|insts| - 1]) + tail, taken);
            Run(InstItems(p.rom, entries, insts) + tail, taken) == Leg(Addrs(insts) + end.addrs, end.out)
    decreases |insts|
  {
    hide InstAt, Good, TranslateInst, Run, Straight;
    var rest := insts[1..];
    var items := TranslateInst(p.rom, entries, insts[0]);
    var more := InstItems(p.rom, entries, rest);
    assert InstItems(p.rom, entries, insts) + tail == [Comment(insts[0].pcBefore)] + (items + more + tail);
    RunComment(insts[0].pcBefore, items + more + tail, taken);
    if rest == [] {
      assert items + more + tail == items + tail;
    } else {
      StraightRest(p, insts);
      TranslationAgrees(p.rom, entries, insts[0]);
      assert items + more + tail == more + tail;
      RunStraight(p, entries, rest, tail, taken);
    }
  }

  /** Where a block's text leads. */
  function OutOf(rom: seq<Byte>, entries: set<Long>, entry: Long, b: Block, last: Inst, rest: seq<Item>,
                 taken: bool): Out {
    match last.flow
    case Plain =>
      if b.branchTarget in entries && b.branchTarget != entry then Tail(b.branchTarget) else Arrive(b.branchTarget)
    case Return => Returned
    case Branch(target) => if taken then Arrive(target) else Run(rest, false).out
    case Jump(target) =>
      if TranslateInst(rom, entries, last) == [TailCall(target)] then Tail(target) else Arrive(target)
    case JumpIndirect => Dispatched
    case JumpUnknown => Dispatched
    case Call(target) => CallOut(target, [Goto(last.pcAfter)] + rest)
    case CallIndirect => CallAny([Goto(last.pcAfter)] + rest)
    case CallUnknown => CallAny([Goto(last.pcAfter)] + rest)
  }

  lemma RunEnd(p: Program, entries: set<Long>, f: Function, b: Block, last: Inst, rest: seq<Item>, taken: bool)
    requires InstAt(p.rom, last.pcBefore) == Some(last) && Ends(p, b, last)
    requires last.flow.Plain? ==> b.exit == Exit.Jump && b.branchTarget != 0
    requires rest == [] || rest[0].Label?
    ensures Run(TranslateInst(p.rom, entries, last) + ExitItems(entries, f.entry, b) + rest, taken)
            == Leg([], OutOf(p.rom, entries, f.entry, b, last, rest, taken))
  {
    hide InstAt, TranslateInst, Good, SwitchTarget;
    TranslationAgrees(p.rom, entries, last);
    var items := TranslateInst(p.rom, entries, last);
    var text := items + ExitItems(entries, f.entry, b) + rest;
    match last.flow
    case Call(_) => assert text[1..][1..] == [Goto(last.pcAfter)] + rest;
    case CallIndirect => assert text[1..][1..] == [Goto(last.pcAfter)] + rest;
    case CallUnknown => assert text[1..][1..] == [Goto(last.pcAfter)] + rest;
    case Branch(_) => assert text[1..] == rest;
    case _ =>
  }

  // ---------------------------------------------------------------- when the text is right

  ghost predicate GotosHaveLabels(p: Program, entries: set<Long>, f: Function, b: Block) {
    var items := BlockItems(p.rom, entries, f.entry, b);
    forall i :: 0 <= i < |items| && (items[i].Goto? || items[i].GotoIf?) ==> items[i].target in f.blocks
  }

  /** The fallthrough of a block is a block, and no other block starts before it. */
  ghost predicate FallthroughNext(f: Function, s: Long, after: Long) {
    after in f.blocks && forall other :: other in f.blocks ==> other <= s || after <= other
  }

  /** A block whose text can be right: every goto has its label, the code does not run into
      something that is not code, no other block starts inside a block that ends in a branch,
      its fallthrough is a block, and no transfer has a target that is known to be wrong. */
  ghost predicate Laid(p: Program, entries: set<Long>, f: Function, b: Block) {
    b.insts != []
    && GotosHaveLabels(p, entries, f, b)
    && var last := b.insts[|b.insts| - 1];
       match last.flow
       case Plain => b.exit == Exit.Jump
       case Branch(_) => FallthroughNext(f, b.start, last.pcAfter)
       case Jump(target) => target != 0
       case Call(target) => target in entries
       case _ => true
  }

  ghost predicate WellLaid(p: Program, functions: map<Long, Function>) {
    forall e, s :: e in functions && s in functions[e].blocks ==>
      Laid(p, functions.Keys, functions[e], functions[e].blocks[s])
  }

  /** The next instruction after the last one of a block, given a choice. */
  function NextOf(last: Inst, stack: seq<Long>, c: Choice): Option<State> {
    match last.flow
    case Plain => Some(State(last.pcAfter, stack))
    case Return => if stack == [] then None else Some(State(stack[|stack| - 1], stack[..|stack| - 1]))
    case Branch(target) => Some(State(if c.taken then target else last.pcAfter, stack))
    case Jump(target) => Some(State(target, stack))
    case JumpIndirect => Some(State(c.target, stack))
    case JumpUnknown => Some(State(c.target, stack))
    case Call(target) => Some(State(target, stack + [last.pcAfter]))
    case CallIndirect => Some(State(c.target, stack + [last.pcAfter]))
    case CallUnknown => Some(State(c.target, stack + [last.pcAfter]))
  }

  /** The machine's steps are the choices. */
  lemma ChosenSteps(p: Program, entries: set<Long>, last: Inst, stack: seq<Long>, next: State)
    requires Good(p, last.pcBefore) && InstAt(p.rom, last.pcBefore) == Some(last)
    requires last.flow.Jump? ==> last.flow.target != 0
    requires entries != {}
    ensures Step(p, entries, State(last.pcBefore, stack), next)
            <==> exists c: Choice :: c.target in entries && NextOf(last, stack, c) == Some(next)
  {
    hide InstAt, Even;
    if Step(p, entries, State(last.pcBefore, stack), next) {
      var some :| some in entries;
      var c := Choice(last.flow.Branch? && next.pc == last.flow.target, if next.pc in entries then next.pc else some);
      assert c.target in entries && NextOf(last, stack, c) == Some(next);
    }
  }

  // ---------------------------------------------------------------- threads and machine states

  /** Text about to jump to the block at pc. */
  predicate Heading(functions: map<Long, Function>, at: Frame, pc: Long) {
    at.fn in functions && pc in functions[at.fn].blocks && at.items != [] && at.items[0] == Goto(pc)
  }

  /** Text at the block at pc. */
  predicate Standing(functions: map<Long, Function>, prog: Texts, at: Frame, pc: Long) {
    at.fn in functions && pc in functions[at.fn].blocks && at.fn in prog && After(prog[at.fn], pc) == Some(at.items)
  }

  predicate StacksAgree(functions: map<Long, Function>, frames: seq<Frame>, stack: seq<Long>) {
    |frames| == |stack| && forall i :: 0 <= i < |frames| ==> Heading(functions, frames[i], stack[i])
  }

  predicate Agree(functions: map<Long, Function>, prog: Texts, t: Thread, m: State) {
    (Heading(functions, t.at, m.pc) || Standing(functions, prog, t.at, m.pc))
    && StacksAgree(functions, t.stack, m.stack)
  }

  ghost predicate Lifted(p: Program, functions: map<Long, Function>, prog: Texts) {
    Loadable(p) && Complete(p, functions) && WellLaid(p, functions) && IsProgram(p, functions, prog)
  }

  lemma ArriveAgrees(p: Program, functions: map<Long, Function>, prog: Texts, t: Thread, c: Choice, l: Long,
                     stack: seq<Long>)
    requires Lifted(p, functions, prog) && t.at.fn in functions && l in functions[t.at.fn].blocks
    requires StacksAgree(functions, t.stack, stack)
    ensures var next := Resume(prog, t, c, Arrive(l));
            next.Some? && Agree(functions, prog, next.value, State(l, stack))
            && Standing(functions, prog, next.value.at, l)
  {
    hide IsText, Complete, WellLaid, StacksAgree;
    var rest := FindBlock(p.rom, functions.Keys, functions[t.at.fn], prog[t.at.fn], l);
  }

  lemma InvokeAgrees(p: Program, functions: map<Long, Function>, prog: Texts, target: Long, frames: seq<Frame>,
                     stack: seq<Long>)
    requires Lifted(p, functions, prog) && target in functions && StacksAgree(functions, frames, stack)
    ensures var next := Invoke(prog, target, frames);
            next.Some? && Agree(functions, prog, next.value, State(target, stack))
  {
    hide Layout, InOrder, WellLaid, FiledBlock, Seed;
    var f := functions[target];
    assert Traced(p, f, functions.Keys, []);
    assert IsText(p.rom, functions.Keys, f, prog[target]);
  }

  lemma PushAgrees(functions: map<Long, Function>, frames: seq<Frame>, stack: seq<Long>, frame: Frame, pc: Long)
    requires StacksAgree(functions, frames, stack) && Heading(functions, frame, pc)
    ensures StacksAgree(functions, frames + [frame], stack + [pc])
  {
    hide Heading;
  }

  lemma PopAgrees(functions: map<Long, Function>, prog: Texts, frames: seq<Frame>, stack: seq<Long>)
    requires StacksAgree(functions, frames, stack)
    ensures stack == [] <==> PopFrame(frames).None?
    ensures stack != [] ==>
              Agree(functions, prog, PopFrame(frames).value, State(stack[|stack| - 1], stack[..|stack| - 1]))
  {
    hide Heading, Standing;
  }

  // ---------------------------------------------------------------- the end of a block

  lemma {:induction false} LastItems(rom: seq<Byte>, entries: set<Long>, insts: seq<Inst>) returns (before: seq<Item>)
    requires insts != []
    ensures InstItems(rom, entries, insts) == before + TranslateInst(rom, entries, insts[|insts| - 1])
    decreases |insts|
  {
    hide TranslateInst;
    var first := [Comment(insts[0].pcBefore)];
    if |insts| == 1 {
      before := first;
    } else {
      assert insts[1..][|insts| - 2] == insts[|insts| - 1];
      var more := LastItems(rom, entries, insts[1..]);
      before := first + TranslateInst(rom, entries, insts[0]) + more;
    }
  }

  lemma GotoIsBlock(p: Program, entries: set<Long>, f: Function, b: Block, item: Item)
    requires b.insts != [] && GotosHaveLabels(p, entries, f, b)
    requires item in TranslateInst(p.rom, entries, b.insts[|b.insts| - 1]) || item in ExitItems(entries, f.entry, b)
    requires item.Goto? || item.GotoIf?
    ensures item.target in f.blocks
  {
    hide TranslateInst, ExitItems;
    var before := LastItems(p.rom, entries, b.insts);
    var items := BlockItems(p.rom, entries, f.entry, b);
    assert item in items;
  }

  lemma {:induction false} StraightGrows(p: Program, insts: seq<Inst>, i: nat)
    requires Loadable(p) && Straight(p, insts) && i < |insts|
    ensures insts[0].pcBefore <= insts[i].pcBefore < insts[i].pcAfter
  {
    hide InstAt;
    assert InstAt(p.rom, insts[i].pcBefore) == Some(insts[i]);
    Advances(p, insts[i].pcBefore);
    if i > 0 {
      StraightGrows(p, insts, i - 1);
      assert insts[i - 1 + 1].pcBefore == insts[i - 1].pcAfter;
    }
  }

  /** What comes after a block that ends in a branch is its fallthrough exactly when that is the
      next block: the exit emits no goto for it. */
  lemma FallsThroughExactly(f: Function, s: Long, after: Long, rest: seq<Item>)
    requires Following(f, s, rest) && s < after
    ensures Run(rest, false).out == Arrive(after) <==> FallthroughNext(f, s, after)
  {
    if rest != [] {
      assert Run(rest, false).out == Arrive(rest[0].at);
    }
  }

  /** The blocks that Laid promises, case by case. */
  lemma EndsInBlocks(p: Program, entries: set<Long>, f: Function, s: Long, b: Block, rest: seq<Item>, taken: bool)
    requires Loadable(p) && FiledBlock(p, s, b) && Laid(p, entries, f, b) && Following(f, s, rest)
    ensures var last := b.insts[|b.insts| - 1];
            var out := OutOf(p.rom, entries, f.entry, b, last, rest, taken);
            match last.flow
            case Plain => (out == Arrive(last.pcAfter) && last.pcAfter in f.blocks)
                          || (out == Tail(last.pcAfter) && last.pcAfter in entries)
            case Branch(target) =>
              var l := if taken then target else last.pcAfter;
              out == Arrive(l) && l in f.blocks
            case Jump(target) =>
              (out == Arrive(target) && target in f.blocks) || (out == Tail(target) && target in entries)
            case Call(target) => target in entries && last.pcAfter in f.blocks
            case CallIndirect => last.pcAfter in f.blocks
            case CallUnknown => last.pcAfter in f.blocks
            case _ => true
  {
    hide InstAt, TranslateInst, Good, SwitchTarget, Straight, Reach, GotosHaveLabels, Following, Run;
    var last := b.insts[|b.insts| - 1];
    DecodedLast(p, b);
    TranslationAgrees(p.rom, entries, last);
    StraightGrows(p, b.insts, |b.insts| - 1);
    match last.flow
    case Plain =>
      if !(b.branchTarget in entries && b.branchTarget != f.entry) {
        GotoIsBlock(p, entries, f, b, Goto(b.branchTarget));
      }
    case Branch(target) =>
      GotoIsBlock(p, entries, f, b, GotoIf(target));
      FallsThroughExactly(f, s, last.pcAfter, rest);
    case Jump(target) =>
      if TranslateInst(p.rom, entries, last) != [TailCall(target)] {
        GotoIsBlock(p, entries, f, b, Goto(target));
      }
    case Call(_) => GotoIsBlock(p, entries, f, b, Goto(last.pcAfter));
    case CallIndirect => GotoIsBlock(p, entries, f, b, Goto(last.pcAfter));
    case CallUnknown => GotoIsBlock(p, entries, f, b, Goto(last.pcAfter));
    case _ =>
  }

  lemma DecodedLast(p: Program, b: Block)
    requires ValidBlock(p, b) && b.insts != []
    ensures var last := b.insts[|b.insts| - 1];
            Good(p, last.pcBefore) && InstAt(p.rom, last.pcBefore) == Some(last)
  {
    hide Good, InstAt, Ends;
  }

  lemma LegOfBlock(p: Program, entries: set<Long>, f: Function, b: Block, rest: seq<Item>, taken: bool)
    requires Loadable(p) && ValidBlock(p, b) && b.insts != [] && (rest == [] || rest[0].Label?)
    requires b.insts[|b.insts| - 1].flow.Plain? ==> b.exit == Exit.Jump
    ensures Run(BlockItems(p.rom, entries, f.entry, b) + rest, taken)
            == Leg(Addrs(b.insts), OutOf(p.rom, entries, f.entry, b, b.insts[|b.insts| - 1], rest, taken))
  {
    hide InstAt, TranslateInst, ExitItems, Good, SwitchTarget, Straight, Run, OutOf, InstItems, Ends;
    var last := b.insts[|b.insts| - 1];
    var exit := ExitItems(entries, f.entry, b);
    var tail := exit + rest;
    assert BlockItems(p.rom, entries, f.entry, b) + rest == InstItems(p.rom, entries, b.insts) + tail;
    RunStraight(p, entries, b.insts, tail, taken);
    DecodedLast(p, b);
    if last.flow.Plain? {
      CutIsNotZero(p, b);
    }
    RunEnd(p, entries, f, b, last, rest, taken);
    assert TranslateInst(p.rom, entries, last) + exit + rest == TranslateInst(p.rom, entries, last) + tail;
    assert Addrs(b.insts) + [] == Addrs(b.insts);
  }

  /** One leg through a block: its instructions, then where it leads. */
  lemma BlockLeg(p: Program, functions: map<Long, Function>, prog: Texts, e: Long, s: Long, taken: bool)
    returns (rest: seq<Item>)
    requires Lifted(p, functions, prog) && e in functions && s in functions[e].blocks
    ensures var f := functions[e];
            var b := f.blocks[s];
            Following(f, s, rest) && FiledBlock(p, s, b) && Laid(p, functions.Keys, f, b)
            && After(prog[e], s).Some?
            && Run(After(prog[e], s).value, taken)
               == Leg(Addrs(b.insts), OutOf(p.rom, functions.Keys, f.entry, b, b.insts[|b.insts| - 1], rest, taken))
  {
    hide Good, SwitchTarget, Straight, Reach, GotosHaveLabels, Run, IsText, OutOf, BlockItems, Ends, Complete, WellLaid;
    var f := functions[e];
    BlockIsSound(p, functions, e, s);
    rest := FindBlock(p.rom, functions.Keys, f, prog[e], s);
    LegOfBlock(p, functions.Keys, f, f.blocks[s], rest, taken);
  }

  lemma BlockIsSound(p: Program, functions: map<Long, Function>, e: Long, s: Long)
    requires Complete(p, functions) && WellLaid(p, functions) && e in functions && s in functions[e].blocks
    ensures FiledBlock(p, s, functions[e].blocks[s]) && Laid(p, functions.Keys, functions[e], functions[e].blocks[s])
  {
    hide FiledBlock, Laid, Seed, Successors, Callees;
    assert Traced(p, functions[e], functions.Keys, []);
  }

  lemma CutIsNotZero(p: Program, b: Block)
    requires Loadable(p) && ValidBlock(p, b) && b.insts != []
    requires b.insts[|b.insts| - 1].flow.Plain? && b.exit == Exit.Jump
    ensures b.branchTarget != 0
  {
    hide InstAt, Good;
    StraightGrows(p, b.insts, |b.insts| - 1);
  }

  /** After a block, text and machine go on in step. */
  lemma EndAgrees(p: Program, functions: map<Long, Function>, prog: Texts, t: Thread, s: Long, rest: seq<Item>,
                  c: Choice, stack: seq<Long>)
    requires Lifted(p, functions, prog) && t.at.fn in functions && s in functions[t.at.fn].blocks
    requires var f := functions[t.at.fn];
             Following(f, s, rest) && FiledBlock(p, s, f.blocks[s]) && Laid(p, functions.Keys, f, f.blocks[s])
    requires StacksAgree(functions, t.stack, stack) && c.target in functions
    ensures var f := functions[t.at.fn];
            var b := f.blocks[s];
            var last := b.insts[|b.insts| - 1];
            var next := Resume(prog, t, c, OutOf(p.rom, functions.Keys, f.entry, b, last, rest, c.taken));
            var m := NextOf(last, stack, c);
            (next.None? <==> m.None?) && (next.Some? ==> Agree(functions, prog, next.value, m.value))
  {
    hide InstAt, TranslateInst, Good, Laid, FiledBlock, Following, Run, Agree, StacksAgree, Lifted, Heading;
    LiftedIsLoadable(p, functions, prog);
    var f := functions[t.at.fn];
    var b := f.blocks[s];
    var last := NonEmpty(p, functions.Keys, f, b);
    EndsInBlocks(p, functions.Keys, f, s, b, rest, c.taken);
    match last.flow
    case Plain => GoesOn(p, functions, prog, t, c, last.pcAfter, stack);
    case Return => PopAgrees(functions, prog, t.stack, stack);
    case Branch(target) => GoesOn(p, functions, prog, t, c, if c.taken then target else last.pcAfter, stack);
    case Jump(target) => GoesOn(p, functions, prog, t, c, target, stack);
    case JumpIndirect => InvokeAgrees(p, functions, prog, c.target, t.stack, stack);
    case JumpUnknown => InvokeAgrees(p, functions, prog, c.target, t.stack, stack);
    case Call(target) => CallsOn(p, functions, prog, t, rest, target, last.pcAfter, stack);
    case CallIndirect => CallsOn(p, functions, prog, t, rest, c.target, last.pcAfter, stack);
    case CallUnknown => CallsOn(p, functions, prog, t, rest, c.target, last.pcAfter, stack);
  }

  lemma LiftedIsLoadable(p: Program, functions: map<Long, Function>, prog: Texts)
    requires Lifted(p, functions, prog)
    ensures Loadable(p)
  {
  }

  lemma NonEmpty(p: Program, entries: set<Long>, f: Function, b: Block) returns (last: Inst)
    requires Laid(p, entries, f, b)
    ensures b.insts != [] && last == b.insts[|b.insts| - 1]
  {
    last := b.insts[|b.insts| - 1];
  }

  lemma GoesOn(p: Program, functions: map<Long, Function>, prog: Texts, t: Thread, c: Choice, l: Long, stack: seq<Long>)
    requires Lifted(p, functions, prog) && t.at.fn in functions && StacksAgree(functions, t.stack, stack)
    ensures l in functions[t.at.fn].blocks ==>
              var next := Resume(prog, t, c, Arrive(l));
              next.Some? && Agree(functions, prog, next.value, State(l, stack))
    ensures l in functions ==>
              var next := Resume(prog, t, c, Tail(l));
              next.Some? && Agree(functions, prog, next.value, State(l, stack))
  {
    hide Lifted, Agree, StacksAgree;
    if l in functions[t.at.fn].blocks {
      ArriveAgrees(p, functions, prog, t, c, l, stack);
    }
    if l in functions {
      InvokeAgrees(p, functions, prog, l, t.stack, stack);
    }
  }

  lemma CallsOn(p: Program, functions: map<Long, Function>, prog: Texts, t: Thread, rest: seq<Item>, target: Long,
                back: Long, stack: seq<Long>)
    requires Lifted(p, functions, prog) && t.at.fn in functions && StacksAgree(functions, t.stack, stack)
    requires target in functions && back in functions[t.at.fn].blocks
    ensures var next := Invoke(prog, target, t.stack + [Frame(t.at.fn, [Goto(back)] + rest)]);
            next.Some? && Agree(functions, prog, next.value, State(target, stack + [back]))
  {
    hide Lifted, Agree, StacksAgree;
    var frame := Frame(t.at.fn, [Goto(back)] + rest);
    PushAgrees(functions, t.stack, stack, frame, back);
    InvokeAgrees(p, functions, prog, target, t.stack + [frame], stack + [back]);
  }

  // ---------------------------------------------------------------- text and machine

  predicate Resolved(functions: map<Long, Function>, choices: seq<Choice>) {
    forall i :: 0 <= i < |choices| ==> choices[i].target in functions
  }

  lemma {:induction false} FollowStraight(p: Program, entries: set<Long>, insts: seq<Inst>, stack: seq<Long>,
                                          more: seq<Long>, next: State)
    requires Straight(p, insts) && insts != []
    requires more == []
             || (Step(p, entries, State(insts[|insts| - 1].pcBefore, stack), next) && Follows(p, entries, next, more))
    ensures Follows(p, entries, State(insts[0].pcBefore, stack), Addrs(insts) + more)
    decreases |insts|
  {
    hide InstAt, Good, Step, Follows;
    FirstIsGood(p, insts);
    if |insts| == 1 {
      FollowOne(p, entries, State(insts[0].pcBefore, stack), next, more);
      assert Addrs(insts) == [insts[0].pcBefore];
    } else {
      StraightRest(p, insts);
      var second := State(insts[1].pcBefore, stack);
      PlainStep(p, entries, insts[0], stack);
      FollowStraight(p, entries, insts[1..], stack, more, next);
      FollowOne(p, entries, State(insts[0].pcBefore, stack), second, Addrs(insts[1..]) + more);
      assert Addrs(insts) + more == [insts[0].pcBefore] + (Addrs(insts[1..]) + more);
    }
  }

  lemma FirstIsGood(p: Program, insts: seq<Inst>)
    requires Straight(p, insts) && insts != []
    ensures Good(p, insts[0].pcBefore)
  {
  }

  lemma FollowOne(p: Program, entries: set<Long>, m: State, next: State, more: seq<Long>)
    requires Good(p, m.pc) && (more == [] || (Step(p, entries, m, next) && Follows(p, entries, next, more)))
    ensures Follows(p, entries, m, [m.pc] + more)
  {
    hide Good, Step;
    assert ([m.pc] + more)[1..] == more;
  }

  lemma PlainStep(p: Program, entries: set<Long>, inst: Inst, stack: seq<Long>)
    requires Good(p, inst.pcBefore) && InstAt(p.rom, inst.pcBefore) == Some(inst) && inst.flow.Plain?
    ensures Step(p, entries, State(inst.pcBefore, stack), State(inst.pcAfter, stack))
    ensures forall next :: Step(p, entries, State(inst.pcBefore, stack), next) ==> next == State(inst.pcAfter, stack)
  {
    hide InstAt;
  }

  lemma {:induction false} StraightFollowed(p: Program, entries: set<Long>, insts: seq<Inst>, stack: seq<Long>,
                                            trace: seq<Long>)
    returns (next: State)
    requires Straight(p, insts) && insts != [] && Follows(p, entries, State(insts[0].pcBefore, stack), trace)
    ensures |trace| <= |insts| ==> trace == Addrs(insts)[..|trace|]
    ensures |trace| > |insts| ==>
              trace[..|insts|] == Addrs(insts)
              && Step(p, entries, State(insts[|insts| - 1].pcBefore, stack), next)
              && Follows(p, entries, next, trace[|insts|..])
    decreases |insts|
  {
    hide InstAt, Good, Step;
    var m := State(insts[0].pcBefore, stack);
    next := m;
    if |trace| > 1 {
      next :| Step(p, entries, m, next) && Follows(p, entries, next, trace[1..]);
      if |insts| > 1 {
        StraightRest(p, insts);
        PlainStep(p, entries, insts[0], stack);
        next := StraightFollowed(p, entries, insts[1..], stack, trace[1..]);
        SplitFirst(trace, insts);
      }
    }
  }

  lemma SplitFirst(trace: seq<Long>, insts: seq<Inst>)
    requires |insts| > 1 && |trace| > 1 && trace[0] == insts[0].pcBefore
    ensures |trace| <= |insts| && trace[1..] == Addrs(insts[1..])[..|trace| - 1] ==> trace == Addrs(insts)[..|trace|]
    ensures |trace| > |insts| && trace[1..][..|insts| - 1] == Addrs(insts[1..]) ==> trace[..|insts|] == Addrs(insts)
    ensures |trace| > |insts| ==> trace[1..][|insts| - 1..] == trace[|insts|..]
  {
    AddrsRest(insts);
    hide Addrs;
    ConsPrefix(trace, Addrs(insts));
  }

  lemma AddrsRest(insts: seq<Inst>)
    requires insts != []
    ensures Addrs(insts)[1..] == Addrs(insts[1..])
  {
  }

  lemma ConsPrefix(trace: seq<Long>, all: seq<Long>)
    requires all != [] && trace != [] && trace[0] == all[0]
    ensures |trace| <= |all| && trace[1..] == all[1..][..|trace| - 1] ==> trace == all[..|trace|]
    ensures |trace| > |all| && trace[1..][..|all| - 1] == all[1..] ==> trace[..|all|] == all
    ensures |trace| > |all| ==> trace[1..][|all| - 1..] == trace[|all|..]
  {
    assert trace == [trace[0]] + trace[1..] && all == [all[0]] + all[1..];
    if |trace| <= |all| {
      assert all[..|trace|] == [all[0]] + all[1..][..|trace| - 1];
    } else {
      assert trace[..|all|] == [trace[0]] + trace[1..][..|all| - 1];
    }
  }

  /** A leg that only heads for a block comes to it without executing anything. */
  lemma HeadingLeg(p: Program, functions: map<Long, Function>, prog: Texts, t: Thread, m: State, c: Choice)
    requires Lifted(p, functions, prog) && Agree(functions, prog, t, m) && Heading(functions, t.at, m.pc)
    ensures Run(t.at.items, c.taken) == Leg([], Arrive(m.pc))
    ensures var next := Resume(prog, t, c, Arrive(m.pc));
            next.Some? && Agree(functions, prog, next.value, m) && Standing(functions, prog, next.value.at, m.pc)
  {
    hide Lifted, StacksAgree;
    ArriveAgrees(p, functions, prog, t, c, m.pc, m.stack);
  }

  /** A leg through a block, with the machine beside it. */
  lemma StandingLeg(p: Program, functions: map<Long, Function>, prog: Texts, t: Thread, m: State, c: Choice)
    returns (insts: seq<Inst>)
    requires Lifted(p, functions, prog) && Agree(functions, prog, t, m) && Standing(functions, prog, t.at, m.pc)
    requires c.target in functions
    ensures insts != [] && Straight(p, insts) && insts[0].pcBefore == m.pc
    ensures insts[|insts| - 1].flow.Jump? ==> insts[|insts| - 1].flow.target != 0
    ensures var leg := Run(t.at.items, c.taken);
            var next := Resume(prog, t, c, leg.out);
            var machine := NextOf(insts[|insts| - 1], m.stack, c);
            leg.addrs == Addrs(insts)
            && (next.None? <==> machine.None?) && (next.Some? ==> Agree(functions, prog, next.value, machine.value))
    ensures insts == functions[t.at.fn].blocks[m.pc].insts
  {
    hide Lifted, StacksAgree, OutOf, Run, Straight, GotosHaveLabels, Following, Resume, NextOf, Ends;
    var b := functions[t.at.fn].blocks[m.pc];
    var rest := BlockLeg(p, functions, prog, t.at.fn, m.pc, c.taken);
    EndAgrees(p, functions, prog, t, m.pc, rest, c, m.stack);
    insts := b.insts;
  }

  /** Whatever the emitted text executes, the machine can execute. */
  lemma {:induction false} TextIsFollowed(p: Program, functions: map<Long, Function>, prog: Texts, t: Thread, m: State,
                                          choices: seq<Choice>)
    requires Lifted(p, functions, prog) && Agree(functions, prog, t, m) && Resolved(functions, choices)
    ensures Follows(p, functions.Keys, m, Trace(prog, t, choices))
    decreases |choices|
  {
    hide Lifted, Agree, Run, Resume, Heading, Standing, Straight, NextOf, Step, Follows, Good, InstAt;
    if choices == [] {
      FollowsNothing(p, functions.Keys, m);
    } else {
      var c := choices[0];
      if Heading(functions, t.at, m.pc) {
        HeadingLeg(p, functions, prog, t, m, c);
        var next := Resume(prog, t, c, Arrive(m.pc)).value;
        TextIsFollowed(p, functions, prog, next, m, choices[1..]);
        assert [] + Trace(prog, next, choices[1..]) == Trace(prog, next, choices[1..]);
      } else {
        StandsOrHeads(functions, prog, t, m);
        var insts := StandingLeg(p, functions, prog, t, m, c);
        var next := Resume(prog, t, c, Run(t.at.items, c.taken).out);
        if next.Some? {
          var machine := NextOf(insts[|insts| - 1], m.stack, c).value;
          TextIsFollowed(p, functions, prog, next.value, machine, choices[1..]);
          LastSteps(p, functions.Keys, insts, m.stack, c, machine);
          FollowStraight(p, functions.Keys, insts, m.stack, Trace(prog, next.value, choices[1..]), machine);
        } else {
          FollowStraight(p, functions.Keys, insts, m.stack, [], m);
        }
      }
    }
  }

  lemma FollowsNothing(p: Program, entries: set<Long>, m: State)
    ensures Follows(p, entries, m, [])
  {
  }

  lemma StandsOrHeads(functions: map<Long, Function>, prog: Texts, t: Thread, m: State)
    requires Agree(functions, prog, t, m)
    ensures Heading(functions, t.at, m.pc) || Standing(functions, prog, t.at, m.pc)
    ensures t.at.fn in functions
  {
  }

  lemma LastSteps(p: Program, entries: set<Long>, insts: seq<Inst>, stack: seq<Long>, c: Choice, next: State)
    requires Straight(p, insts) && insts != [] && c.target in entries
    requires NextOf(insts[|insts| - 1], stack, c) == Some(next)
    requires insts[|insts| - 1].flow.Jump? ==> insts[|insts| - 1].flow.target != 0
    ensures Step(p, entries, State(insts[|insts| - 1].pcBefore, stack), next)
  {
    hide Good, InstAt, Step, NextOf;
    ChosenSteps(p, entries, insts[|insts| - 1], stack, next);
  }

  lemma LastChoice(p: Program, entries: set<Long>, insts: seq<Inst>, stack: seq<Long>, next: State) returns (c: Choice)
    requires Straight(p, insts) && insts != [] && entries != {}
    requires Step(p, entries, State(insts[|insts| - 1].pcBefore, stack), next)
    requires insts[|insts| - 1].flow.Jump? ==> insts[|insts| - 1].flow.target != 0
    ensures c.target in entries && NextOf(insts[|insts| - 1], stack, c) == Some(next)
  {
    hide Good, InstAt, Step, NextOf;
    ChosenSteps(p, entries, insts[|insts| - 1], stack, next);
    c :| c.target in entries && NextOf(insts[|insts| - 1], stack, c) == Some(next);
  }

  /** Whatever the machine executes, the emitted text executes under some choices. */
  lemma {:induction false} MachineIsFollowed(p: Program, functions: map<Long, Function>, prog: Texts, t: Thread,
                                             m: State, trace: seq<Long>)
    returns (choices: seq<Choice>)
    requires Lifted(p, functions, prog) && Agree(functions, prog, t, m) && Follows(p, functions.Keys, m, trace)
    ensures Resolved(functions, choices) && trace <= Trace(prog, t, choices)
    decreases |trace|, if Standing(functions, prog, t.at, m.pc) then 0 else 1
  {
    hide Lifted, Agree, Run, Resume, Heading, Standing, Straight, NextOf, Step, Follows, Good, InstAt;
    StandsOrHeads(functions, prog, t, m);
    var c := Choice(false, t.at.fn);
    if !Standing(functions, prog, t.at, m.pc) {
      HeadingLeg(p, functions, prog, t, m, c);
      var next := Resume(prog, t, c, Arrive(m.pc)).value;
      var more := MachineIsFollowed(p, functions, prog, next, m, trace);
      choices := [c] + more;
      assert choices[1..] == more;
      assert Trace(prog, t, choices) == [] + Trace(prog, next, more);
    } else {
      var insts := StandingLeg(p, functions, prog, t, m, c);
      var machine := StraightFollowed(p, functions.Keys, insts, m.stack, trace);
      if |trace| <= |insts| {
        choices := [c];
        assert trace <= Addrs(insts);
      } else {
        c := LastChoice(p, functions.Keys, insts, m.stack, machine);
        var same := StandingLeg(p, functions, prog, t, m, c);
        var next := Resume(prog, t, c, Run(t.at.items, c.taken).out).value;
        var more := MachineIsFollowed(p, functions, prog, next, machine, trace[|insts|..]);
        choices := [c] + more;
        assert choices[1..] == more;
        assert Trace(prog, t, choices) == Addrs(insts) + Trace(prog, next, more);
        assert trace == Addrs(insts) + trace[|insts|..];
      }
    }
  }

  /** The translation keeps its meaning: started at any function, the emitted program can
      execute exactly the sequences of instructions that the machine can. */
  lemma TextIsTheMachine(p: Program, functions: map<Long, Function>, prog: Texts, e: Long, trace: seq<Long>)
    requires Lifted(p, functions, prog) && e in functions
    ensures Follows(p, functions.Keys, State(e, []), trace)
            <==> exists choices :: Resolved(functions, choices)
                   && trace <= Trace(prog, Thread(Frame(e, prog[e]), []), choices)
  {
    hide WellLaid, Complete, IsText, Trace, Follows, Agree;
    var t := Thread(Frame(e, prog[e]), []);
    var m := State(e, []);
    InvokeAgrees(p, functions, prog, e, [], []);
    if Follows(p, functions.Keys, m, trace) {
      var choices := MachineIsFollowed(p, functions, prog, t, m, trace);
    }
    if choices :| Resolved(functions, choices) && trace <= Trace(prog, t, choices) {
      TextIsFollowed(p, functions, prog, t, m, choices);
      var whole := Trace(prog, t, choices);
      FollowsPrefix(p, functions.Keys, m, whole, |trace|);
      assert whole[..|trace|] == trace;
    }
  }
}

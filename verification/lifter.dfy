/** The control-flow part of the code generator (src/recomp/lifter.cpp): a function's blocks
    become labelled stretches of one C++ function, in ascending address order.

    The emitted text is modelled as a list of its control-flow statements; the comment that
    precedes every translated instruction stands for the instruction itself. */
module Lifter {
  import opened Words
  import opened Branch
  import opened Decode
  import opened CodeGraph

  datatype Item =
    | Label(at: Long)
    | Comment(at: Long)
    | Goto(target: Long)
    | GotoIf(target: Long)
    | Push(value: Long)
    | CallFunction(target: Long)
    | CallAddress
    | TailCall(target: Long)
    | Dispatch
    | Leave

  /** The statements for one instruction.  Targets are computed anew from the opcode. */
  function TranslateInst(rom: seq<Byte>, entries: set<Long>, inst: Inst): seq<Item> {
    var pc := inst.pcBefore;
    var w := RomWord(rom, pc);
    if Matches(w, "0101", "....", "1100", "1...") then [GotoIf(BranchTarget(pc, WordSize, RomWord(rom, pc + 2)))]
    else if Matches(w, "0110", "....", "....", "....") then
      var byte := Bits(w, 0, 8);
      var target := if byte == 0 then BranchTarget(pc, WordSize, RomWord(rom, pc + 2))
                    else BranchTarget(pc, ByteSize, byte % 0x100);
      if Bits(w, 8, 4) == 0 then [Goto(target)]
      else if Bits(w, 8, 4) == 1 then [Push(inst.pcAfter), CallFunction(target)]
      else [GotoIf(target)]
    else if Matches(w, "0100", "1110", "1...", "....") then
      var target :=
        StaticTarget(Bits(w, 3, 3), Bits(w, 0, 3), RomWord(rom, pc + 2), RomWord(rom, pc + 4), inst.pcAfter);
      if Bits(w, 6, 1) == 0 then [Push(inst.pcAfter), if target == 0 then CallAddress else CallFunction(target)]
      else if target == 0 then [Dispatch]
      else if target in entries then [TailCall(target)]
      else [Goto(target)]
    else if Matches(w, "0100", "1110", "0111", "0011") || Matches(w, "0100", "1110", "0111", "0101")
            || Matches(w, "0100", "1110", "0111", "0111") then [Leave]
    else []
  }

  /** What follows the last instruction of a block. */
  function ExitItems(entries: set<Long>, entry: Long, b: Block): seq<Item> {
    match b.exit
    case Return => []
    case Fallthrough => [Goto(b.fallthrough)]
    case Jump =>
      if b.branchTarget != 0 && b.branchTarget in entries && b.branchTarget != entry then [TailCall(b.branchTarget)]
      else if b.branchTarget != 0 then [Goto(b.branchTarget)]
      else []
    case Branch => []
    case Call => [Goto(b.fallthrough)]
    case IndirectCall => [Goto(b.fallthrough)]
    case IndirectJump => []
  }

  function InstItems(rom: seq<Byte>, entries: set<Long>, insts: seq<Inst>): seq<Item> {
    if insts == [] then []
    else [Comment(insts[0].pcBefore)] + TranslateInst(rom, entries, insts[0]) + InstItems(rom, entries, insts[1..])
  }

  function BlockItems(rom: seq<Byte>, entries: set<Long>, entry: Long, b: Block): seq<Item> {
    InstItems(rom, entries, b.insts) + ExitItems(entries, entry, b)
  }

  function Layout(rom: seq<Byte>, entries: set<Long>, f: Function, order: seq<Long>): seq<Item>
    requires forall i :: 0 <= i < |order| ==> order[i] in f.blocks
  {
    if order == [] then []
    else [Label(order[0])] + BlockItems(rom, entries, f.entry, f.blocks[order[0]])
         + Layout(rom, entries, f, order[1..])
  }

  /** All block starts of a function, ascending. */
  ghost predicate InOrder(f: Function, order: seq<Long>) {
    (forall i, j :: 0 <= i < j < |order| ==> order[i] < order[j])
    && (forall i :: 0 <= i < |order| ==> order[i] in f.blocks)
    && (forall s :: s in f.blocks ==> s in order)
  }

  /** The text of a function. */
  ghost predicate IsText(rom: seq<Byte>, entries: set<Long>, f: Function, text: seq<Item>) {
    exists order :: InOrder(f, order)
      && text == (if f.blocks == map[] then [] else [Goto(f.entry)]) + Layout(rom, entries, f, order)
  }

  // ---------------------------------------------------------------- emission

  method EmitBlock(rom: seq<Byte>, entries: set<Long>, entry: Long, b: Block) returns (text: seq<Item>)
    ensures text == BlockItems(rom, entries, entry, b)
  {
    hide TranslateInst;
    text := [];
    for i := 0 to |b.insts|
      invariant text + InstItems(rom, entries, b.insts[i..]) == InstItems(rom, entries, b.insts)
    {
      text := text + [Comment(b.insts[i].pcBefore)];
      text := text + TranslateInst(rom, entries, b.insts[i]);
      assert b.insts[i..][1..] == b.insts[i + 1..];
    }
    match b.exit
    case Return =>
    case Fallthrough =>
      text := text + [Goto(b.fallthrough)];
    case Jump =>
      if b.branchTarget != 0 && b.branchTarget in entries && b.branchTarget != entry {
        text := text + [TailCall(b.branchTarget)];
      } else if b.branchTarget != 0 {
        text := text + [Goto(b.branchTarget)];
      }
    case Branch =>
    case Call =>
      text := text + [Goto(b.fallthrough)];
    case IndirectCall =>
      text := text + [Goto(b.fallthrough)];
    case IndirectJump =>
  }

  lemma {:induction false} LayoutSplits(rom: seq<Byte>, entries: set<Long>, f: Function, one: seq<Long>,
                                        other: seq<Long>)
    requires forall i :: 0 <= i < |one + other| ==> (one + other)[i] in f.blocks
    ensures forall i :: 0 <= i < |one| ==> one[i] in f.blocks
    ensures forall i :: 0 <= i < |other| ==> other[i] in f.blocks
    ensures Layout(rom, entries, f, one + other) == Layout(rom, entries, f, one) + Layout(rom, entries, f, other)
    decreases |one|
  {
    hide BlockItems;
    assert forall i :: 0 <= i < |one| ==> one[i] == (one + other)[i];
    assert forall i :: 0 <= i < |other| ==> other[i] == (one + other)[|one| + i];
    if one == [] {
      assert one + other == other;
    } else {
      assert (one + other)[1..] == one[1..] + other;
      LayoutSplits(rom, entries, f, one[1..], other);
    }
  }

  /** Part of the way: these starts are in order and come before all the others. */
  ghost predicate Ordering(f: Function, order: seq<Long>, keys: set<Long>) {
    keys <= f.blocks.Keys
    && (forall i, j :: 0 <= i < j < |order| ==> order[i] < order[j])
    && (forall i :: 0 <= i < |order| ==> order[i] in f.blocks)
    && (forall i, k :: 0 <= i < |order| && k in keys ==> order[i] < k)
    && (forall s :: s in f.blocks ==> s in order || s in keys)
  }

  lemma OrderOneMore(f: Function, order: seq<Long>, keys: set<Long>, addr: Long)
    requires Ordering(f, order, keys) && addr in keys && forall other :: other in keys ==> addr <= other
    ensures Ordering(f, order + [addr], keys - {addr})
  {
    var more := order + [addr];
    forall s | s in f.blocks
      ensures s in more || s in keys - {addr}
    {
      if s == addr {
        assert more[|order|] == s;
      } else if s in order {
        assert s in more;
      }
    }
  }

  lemma LayoutOneMore(rom: seq<Byte>, entries: set<Long>, f: Function, order: seq<Long>, addr: Long, head: seq<Item>)
    requires (forall i :: 0 <= i < |order| ==> order[i] in f.blocks) && addr in f.blocks
    ensures head + Layout(rom, entries, f, order + [addr])
            == head + Layout(rom, entries, f, order) + [Label(addr)]
               + BlockItems(rom, entries, f.entry, f.blocks[addr])
  {
    hide BlockItems;
    LayoutSplits(rom, entries, f, order, [addr]);
    assert Layout(rom, entries, f, [addr]) == [Label(addr)] + BlockItems(rom, entries, f.entry, f.blocks[addr]);
  }

  lemma EmptyLayout(rom: seq<Byte>, entries: set<Long>, f: Function)
    ensures Layout(rom, entries, f, []) == []
  {
  }

  /** One function: jump to the entry, then every block under its label. */
  method EmitFunction(rom: seq<Byte>, entries: set<Long>, f: Function) returns (text: seq<Item>)
    ensures IsText(rom, entries, f, text)
  {
    hide BlockItems, Layout;
    text := if f.blocks == map[] then [] else [Goto(f.entry)];
    ghost var head := text;
    ghost var order: seq<Long> := [];
    EmptyLayout(rom, entries, f);
    var keys := f.blocks.Keys;
    while keys != {}
      invariant Ordering(f, order, keys)
      invariant text == head + Layout(rom, entries, f, order)
      decreases keys
    {
      var addr, block := EmitNext(rom, entries, f, keys);
      text := text + [Label(addr)] + block;
      LayoutOneMore(rom, entries, f, order, addr, head);
      OrderOneMore(f, order, keys, addr);
      keys := keys - {addr};
      order := order + [addr];
    }
  }

  /** The block with the least of the remaining addresses. */
  method EmitNext(rom: seq<Byte>, entries: set<Long>, f: Function, keys: set<Long>)
    returns (addr: Long, block: seq<Item>)
    requires keys != {} && keys <= f.blocks.Keys
    ensures addr in keys && forall other :: other in keys ==> addr <= other
    ensures block == BlockItems(rom, entries, f.entry, f.blocks[addr])
  {
    hide BlockItems;
    HasLeast(keys);
    addr :| addr in keys && forall other :: other in keys ==> addr <= other;
    block := EmitBlock(rom, entries, f.entry, f.blocks[addr]);
  }

  // ---------------------------------------------------------------- the whole program

  type Texts = map<Long, seq<Item>>

  ghost predicate IsProgram(p: Program, functions: map<Long, Function>, prog: Texts) {
    prog.Keys == functions.Keys
    && forall e :: e in functions ==> IsText(p.rom, functions.Keys, functions[e], prog[e])
  }

  /** All functions, in ascending order of their entries. */
  method EmitProgram(p: Program, functions: map<Long, Function>) returns (prog: Texts)
    ensures IsProgram(p, functions, prog)
  {
    hide IsText;
    prog := map[];
    var keys := functions.Keys;
    while keys != {}
      invariant keys <= functions.Keys && prog.Keys == functions.Keys - keys
      invariant forall e :: e in prog ==> IsText(p.rom, functions.Keys, functions[e], prog[e])
      decreases keys
    {
      HasLeast(keys);
      var e :| e in keys && forall other :: other in keys ==> e <= other;
      var text := EmitFunction(p.rom, functions.Keys, functions[e]);
      prog := prog[e := text];
      keys := keys - {e};
    }
  }
}

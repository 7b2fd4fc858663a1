/** The map of functions and blocks that the static recompiler's analyser builds
    (src/recomp/analyzer.cpp, src/recomp/analyzer.h), and the reachable code it stands for.

    `Complete` says what a finished map is closed under; the instructions it covers are then
    exactly the reachable ones. */
module CodeGraph {
  import opened Words
  import opened Decode

  datatype SwitchTable = SwitchTable(address: Long, count: Long, entrySize: Long)

  /** What the analyser is given: the ROM image and the configuration. */
  datatype Program = Program(rom: seq<Byte>, switchTables: seq<SwitchTable>, knownFunctions: seq<Long>)

  datatype Exit = Fallthrough | Branch | Jump | IndirectJump | Call | IndirectCall | Return

  datatype Block = Block(start: Long, insts: seq<Inst>, exit: Exit, branchTarget: Long, fallthrough: Long,
                         callTarget: Long, switchTargets: seq<Long>)

  datatype Function = Function(entry: Long, blocks: map<Long, Block>)

  /** No program counter inside the image wraps around, and an image that is taken to have a
      header has the vectors that are read from it. */
  predicate Loadable(p: Program) {
    |p.rom| + 10 <= 0x1_0000_0000 && (|p.rom| < 8 || |p.rom| >= 0x7C)
  }

  predicate InRom(p: Program, a: Long) {
    a < |p.rom|
  }

  /** Addresses the analyser takes up as code. */
  predicate Even(p: Program, a: Long) {
    InRom(p, a) && a % 2 == 0
  }

  /** There is an instruction to be read here. */
  predicate Good(p: Program, a: Long) {
    Even(p, a) && InstAt(p.rom, a).Some?
  }

  // ---------------------------------------------------------------- tables in the ROM

  /** Big-endian value of some bytes; zeros are read outside the image. */
  function RomValue(rom: seq<Byte>, addr: Long, bytes: nat): Long {
    if bytes == 0 then 0
    else
      var a := ToLong(addr + bytes - 1);
      ToLong(RomValue(rom, addr, bytes - 1) * 0x100 + (if a < |rom| then rom[a] else 0))
  }

  function Entry(p: Program, table: SwitchTable, i: nat): Long {
    var size := Signed(table.entrySize, LongSize);
    RomValue(p.rom, ToLong(table.address + i * table.entrySize), if size < 0 then 0 else size)
  }

  /** A target listed by a switch table. */
  ghost predicate TableTarget(p: Program, table: SwitchTable, t: Long) {
    InRom(p, t) && exists i: nat :: i < table.count && Entry(p, table, i) == t
  }

  /** The tables by address; a later table replaces an earlier one. */
  function SwitchMap(tables: seq<SwitchTable>): map<Long, SwitchTable> {
    if tables == [] then map[]
    else
      var last := tables[|tables| - 1];
      SwitchMap(tables[..|tables| - 1])[last.address := last]
  }

  ghost predicate SwitchTarget(p: Program, t: Long) {
    var tables := SwitchMap(p.switchTables);
    exists k :: k in tables && TableTarget(p, tables[k], t)
  }

  // ---------------------------------------------------------------- reachability

  /** Control can go from the instruction at a to t, as far as the analyser can tell: a jump
      whose target is unknown (zero) leads nowhere, a call whose target is unknown still leads
      to address zero. */
  ghost predicate Leads(p: Program, a: Long, t: Long)
    requires Good(p, a)
  {
    var inst := InstAt(p.rom, a).value;
    match inst.flow
    case Plain => t == inst.pcAfter
    case Return => false
    case Branch(target) => t == target || t == inst.pcAfter
    case Jump(target) => t == target && target != 0
    case JumpIndirect => SwitchTarget(p, t)
    case JumpUnknown => false
    case Call(target) => t == target || t == inst.pcAfter
    case CallIndirect => t == inst.pcAfter
    case CallUnknown => t == 0 || t == inst.pcAfter
  }

  predicate Vector(p: Program, a: Long) {
    |p.rom| >= 8 && (a == RomValue(p.rom, 4, 4) || a == RomValue(p.rom, 0x78, 4) || a == RomValue(p.rom, 0x70, 4))
  }

  /** Where the analysis starts: the reset and interrupt vectors, the targets of the
      configured tables and the configured functions. */
  ghost predicate Seed(p: Program, a: Long) {
    Even(p, a)
    && (Vector(p, a)
        || (exists k :: 0 <= k < |p.switchTables| && TableTarget(p, p.switchTables[k], a))
        || a in p.knownFunctions)
  }

  ghost predicate Path(p: Program, path: seq<Long>) {
    |path| > 0 && Seed(p, path[0])
    && forall i :: 0 <= i < |path| - 1 ==> Good(p, path[i]) && Leads(p, path[i], path[i + 1])
  }

  ghost predicate Reach(p: Program, a: Long) {
    exists path :: Path(p, path) && path[|path| - 1] == a
  }

  lemma ReachSeed(p: Program, a: Long)
    requires Seed(p, a)
    ensures Reach(p, a)
  {
    var path := [a];
    assert Path(p, path) && path[|path| - 1] == a;
  }

  lemma ReachStep(p: Program, a: Long, t: Long)
    requires Reach(p, a) && Good(p, a) && Leads(p, a, t)
    ensures Reach(p, t)
  {
    hide Good, Leads, Seed;
    var path :| Path(p, path) && path[|path| - 1] == a;
    var longer := path + [t];
    assert longer[0] == path[0];
    forall i | 0 <= i < |longer| - 1
      ensures Good(p, longer[i]) && Leads(p, longer[i], longer[i + 1])
    {
      if i < |path| - 1 {
        assert longer[i] == path[i] && longer[i + 1] == path[i + 1];
      } else {
        assert longer[i] == a && longer[i + 1] == t;
      }
    }
    assert Path(p, longer) && longer[|longer| - 1] == t;
  }

  lemma Advances(p: Program, a: Long)
    requires Loadable(p) && Good(p, a)
    ensures var inst := InstAt(p.rom, a).value;
            inst.pcBefore == a && a + 2 <= inst.pcAfter <= a + 10 && inst.pcAfter % 2 == 0
  {
    hide InstAt;
    InstLength(p.rom, a);
    var inst := InstAt(p.rom, a).value;
    var k :| 1 <= k <= 5 && inst.pcAfter == ToLong(a + 2 * k);
    NoWrap(a, k);
    hide ToLong;
  }

  lemma NoWrap(a: Long, k: nat)
    requires a % 2 == 0 && a + 2 * k < 0x1_0000_0000
    ensures ToLong(a + 2 * k) == a + 2 * k && (a + 2 * k) % 2 == 0
  {
  }

  // ---------------------------------------------------------------- what a block is

  /** Instructions in a row, each read from the ROM, all but the last going straight on. */
  predicate Straight(p: Program, insts: seq<Inst>) {
    (forall i :: 0 <= i < |insts| ==>
        Good(p, insts[i].pcBefore) && InstAt(p.rom, insts[i].pcBefore) == Some(insts[i]))
    && forall i :: 0 <= i < |insts| - 1 ==> insts[i].flow.Plain? && insts[i + 1].pcBefore == insts[i].pcAfter
  }

  /** How a block ends: the last instruction says so, or there is no instruction after it, or
      the entry of a function comes next. */
  ghost predicate Ends(p: Program, b: Block, last: Inst) {
    match last.flow
    case Plain =>
      (b.exit == Exit.Return && !Good(p, last.pcAfter))
      || (b.exit == Exit.Jump && b.branchTarget == last.pcAfter && b.branchTarget != b.start)
    case Return => b.exit == Exit.Return
    case Branch(target) => b.exit == Exit.Branch && b.branchTarget == target && b.fallthrough == last.pcAfter
    case Jump(target) => b.exit == Exit.Jump && b.branchTarget == target
    case JumpIndirect => b.exit == Exit.IndirectJump && forall t :: t in b.switchTargets <==> SwitchTarget(p, t)
    case JumpUnknown => b.exit == Exit.Jump && b.branchTarget == 0
    case Call(target) => b.exit == Exit.Call && b.callTarget == target && b.fallthrough == last.pcAfter
    case CallUnknown => b.exit == Exit.Call && b.callTarget == 0 && b.fallthrough == last.pcAfter
    case CallIndirect => b.exit == Exit.IndirectCall && b.fallthrough == last.pcAfter
  }

  ghost predicate ValidBlock(p: Program, b: Block) {
    Straight(p, b.insts)
    && if b.insts == [] then !Good(p, b.start) && b.exit == Exit.Return
       else b.insts[0].pcBefore == b.start && Ends(p, b, b.insts[|b.insts| - 1])
  }

  /** Blocks of the same function that come after a block. */
  function Successors(b: Block): seq<Long> {
    match b.exit
    case Fallthrough => [b.fallthrough]
    case Branch => [b.fallthrough, b.branchTarget]
    case Jump => if b.branchTarget != 0 then [b.branchTarget] else []
    case Call => [b.fallthrough]
    case IndirectCall => [b.fallthrough]
    case IndirectJump => b.switchTargets
    case Return => []
  }

  /** Functions a block makes known. */
  function Callees(b: Block): seq<Long> {
    match b.exit
    case Call => [b.callTarget]
    case IndirectJump => b.switchTargets
    case _ => []
  }

  /** The targets of a block are exactly where its last instruction leads, save that a block
      cut off at bad code has none. */
  lemma TargetsAreLeads(p: Program, b: Block, t: Long)
    requires Loadable(p) && ValidBlock(p, b)
    ensures t in Successors(b) + Callees(b)
            ==> (b.insts != [] && Good(p, b.insts[|b.insts| - 1].pcBefore)
                 && Leads(p, b.insts[|b.insts| - 1].pcBefore, t))
    ensures b.insts != [] && Good(p, t) && Leads(p, b.insts[|b.insts| - 1].pcBefore, t)
            ==> t in Successors(b) + Callees(b)
  {
    hide InstAt, SwitchTarget;
    if b.insts != [] {
      var last := b.insts[|b.insts| - 1];
      assert Good(p, last.pcBefore) && InstAt(p.rom, last.pcBefore) == Some(last);
      Advances(p, last.pcBefore);
    }
  }

  // ---------------------------------------------------------------- what a function is

  ghost predicate ReachBlock(p: Program, b: Block) {
    forall i :: 0 <= i < |b.insts| ==> Reach(p, b.insts[i].pcBefore)
  }

  ghost predicate FiledBlock(p: Program, s: Long, b: Block) {
    b.start == s && Even(p, s) && ValidBlock(p, b) && ReachBlock(p, b)
  }

  /** Nothing is left to do for t in this function: it is a block, no code, or the entry of
      another function. */
  predicate Settled(p: Program, f: Function, entries: set<Long>, t: Long) {
    t in f.blocks || !Even(p, t) || (t in entries && t != f.entry)
  }

  /** A function whose blocks are all followed up, given the known entries, save for the
      addresses still waiting. */
  ghost predicate Traced(p: Program, f: Function, entries: set<Long>, waiting: seq<Long>) {
    (f.entry in f.blocks || f.entry in waiting)
    && (forall s :: s in f.blocks ==> FiledBlock(p, s, f.blocks[s]))
    && (forall s, t :: s in f.blocks && t in Successors(f.blocks[s]) ==> Settled(p, f, entries, t) || t in waiting)
    && (forall s, t :: s in f.blocks && t in Callees(f.blocks[s]) ==> !Even(p, t) || t in entries)
  }

  /** The finished analysis. */
  ghost predicate Complete(p: Program, functions: map<Long, Function>) {
    (forall a :: Seed(p, a) ==> a in functions)
    && (forall e :: e in functions ==>
          Even(p, e) && functions[e].entry == e && Traced(p, functions[e], functions.Keys, []))
  }

  /** The instruction address a lies in some block of some function. */
  ghost predicate Covered(functions: map<Long, Function>, a: Long) {
    exists e, s, i :: At(functions, e, s, i, a)
  }

  ghost predicate At(functions: map<Long, Function>, e: Long, s: Long, i: int, a: Long) {
    e in functions && s in functions[e].blocks && 0 <= i < |functions[e].blocks[s].insts|
    && functions[e].blocks[s].insts[i].pcBefore == a
  }

  lemma MoreEntries(p: Program, f: Function, entries: set<Long>, more: set<Long>, waiting: seq<Long>)
    requires Traced(p, f, entries, waiting) && entries <= more
    ensures Traced(p, f, more, waiting)
  {
    hide FiledBlock, Successors, Callees;
  }

  // ---------------------------------------------------------------- exactly the reachable code

  lemma BlockCoversItsStart(p: Program, functions: map<Long, Function>, e: Long, t: Long)
    requires Complete(p, functions) && e in functions && t in functions[e].blocks && Good(p, t)
    ensures Covered(functions, t)
  {
    hide Good, Ends, Seed, Reach;
    assert FiledBlock(p, t, functions[e].blocks[t]);
    assert At(functions, e, t, 0, t);
  }

  lemma EntryIsCovered(p: Program, functions: map<Long, Function>, e: Long)
    requires Complete(p, functions) && e in functions && Good(p, e)
    ensures Covered(functions, e)
  {
    hide Good, Ends, Seed, Reach;
    assert Traced(p, functions[e], functions.Keys, []);
    BlockCoversItsStart(p, functions, e, e);
  }

  lemma StraightOn(p: Program, insts: seq<Inst>, i: nat, t: Long)
    requires Straight(p, insts) && i < |insts| - 1
    requires Leads(p, insts[i].pcBefore, t)
    ensures t == insts[i + 1].pcBefore
  {
    hide InstAt, SwitchTarget;
    assert InstAt(p.rom, insts[i].pcBefore) == Some(insts[i]);
  }

  lemma SettledIsCovered(p: Program, functions: map<Long, Function>, e: Long, t: Long)
    requires Complete(p, functions) && e in functions && Good(p, t)
    requires t in functions || Settled(p, functions[e], functions.Keys, t)
    ensures Covered(functions, t)
  {
    hide InstAt, Complete, Covered;
    if t in functions[e].blocks {
      BlockCoversItsStart(p, functions, e, t);
    } else {
      EntryIsCovered(p, functions, t);
    }
  }

  /** Everything the last instruction of a block leads to is followed up. */
  lemma EndIsFollowed(p: Program, functions: map<Long, Function>, e: Long, s: Long, t: Long)
    requires Loadable(p) && Complete(p, functions) && e in functions && s in functions[e].blocks && Good(p, t)
    requires var b := functions[e].blocks[s];
             b.insts != [] && Good(p, b.insts[|b.insts| - 1].pcBefore)
             && Leads(p, b.insts[|b.insts| - 1].pcBefore, t)
    ensures t in functions || Settled(p, functions[e], functions.Keys, t)
  {
    hide InstAt, Leads, Ends, Seed, Reach, Successors, Callees, Straight, Settled;
    var b := functions[e].blocks[s];
    assert Traced(p, functions[e], functions.Keys, []);
    assert FiledBlock(p, s, b);
    TargetsAreLeads(p, b, t);
    assert t in Successors(b) || t in Callees(b);
  }

  lemma InsideIsFollowed(p: Program, functions: map<Long, Function>, e: Long, s: Long, i: nat, t: Long)
    requires Complete(p, functions) && e in functions && s in functions[e].blocks
    requires i < |functions[e].blocks[s].insts| - 1
    requires Good(p, functions[e].blocks[s].insts[i].pcBefore) && Leads(p, functions[e].blocks[s].insts[i].pcBefore, t)
    ensures Covered(functions, t)
  {
    hide InstAt, Leads, Ends, Seed, Reach, Successors, Callees, Settled;
    assert Traced(p, functions[e], functions.Keys, []);
    assert FiledBlock(p, s, functions[e].blocks[s]);
    StraightOn(p, functions[e].blocks[s].insts, i, t);
    assert At(functions, e, s, i + 1, t);
  }

  /** Code that a covered instruction leads to is covered. */
  lemma CoveredStep(p: Program, functions: map<Long, Function>, a: Long, t: Long)
    requires Loadable(p) && Complete(p, functions)
    requires Covered(functions, a) && Good(p, a) && Leads(p, a, t) && Good(p, t)
    ensures Covered(functions, t)
  {
    hide Good, Leads, Settled, Complete;
    var e, s, i :| At(functions, e, s, i, a);
    var b := functions[e].blocks[s];
    if i < |b.insts| - 1 {
      InsideIsFollowed(p, functions, e, s, i, t);
    } else {
      EndIsFollowed(p, functions, e, s, t);
      SettledIsCovered(p, functions, e, t);
    }
  }

  lemma {:induction false} PathIsCovered(p: Program, functions: map<Long, Function>, path: seq<Long>)
    requires Loadable(p) && Complete(p, functions) && Path(p, path) && Good(p, path[|path| - 1])
    ensures Covered(functions, path[|path| - 1])
    decreases |path|
  {
    hide Good, Leads, Covered, Complete, Seed;
    var n := |path|;
    if n == 1 {
      SeedIsCovered(p, functions, path[0]);
    } else {
      assert Good(p, path[n - 2]) && Leads(p, path[n - 2], path[n - 2 + 1]);
      ShorterPath(p, path);
      PathIsCovered(p, functions, path[..n - 1]);
      CoveredStep(p, functions, path[n - 2], path[n - 1]);
    }
  }

  lemma ShorterPath(p: Program, path: seq<Long>)
    requires Path(p, path) && |path| > 1
    ensures Path(p, path[..|path| - 1])
  {
    hide Good, Leads, Seed;
  }

  lemma SeedIsCovered(p: Program, functions: map<Long, Function>, a: Long)
    requires Complete(p, functions) && Seed(p, a) && Good(p, a)
    ensures Covered(functions, a)
  {
    hide Good, Seed, Covered, Traced;
    assert a in functions;
    EntryIsCovered(p, functions, a);
  }

  /** The instructions of a finished analysis are exactly the addresses that can be reached
      and hold an instruction. */
  lemma CoversExactlyTheReachable(p: Program, functions: map<Long, Function>, a: Long)
    requires Loadable(p) && Complete(p, functions)
    ensures Covered(functions, a) <==> Reach(p, a) && Good(p, a)
  {
    hide Good, Leads, Ends, Seed;
    if Covered(functions, a) {
      var e, s, i :| At(functions, e, s, i, a);
      assert FiledBlock(p, s, functions[e].blocks[s]);
    }
    if Reach(p, a) && Good(p, a) {
      var path :| Path(p, path) && path[|path| - 1] == a;
      PathIsCovered(p, functions, path);
    }
  }

  /** Whatever order the work was taken up in, two finished analyses cover the same code. */
  lemma OrderDoesNotMatter(p: Program, one: map<Long, Function>, other: map<Long, Function>, a: Long)
    requires Loadable(p) && Complete(p, one) && Complete(p, other)
    ensures Covered(one, a) <==> Covered(other, a)
  {
    hide Complete, Covered, Reach;
    CoversExactlyTheReachable(p, one, a);
    CoversExactlyTheReachable(p, other, a);
  }

  /** A set of addresses has a least one: ordered containers are walked from it. */
  lemma HasLeast(keys: set<Long>)
    requires keys != {}
    ensures exists k :: k in keys && forall other :: other in keys ==> k <= other
  {
    var some :| some in keys;
    HasLeastBelow(keys, some);
  }

  lemma {:induction false} HasLeastBelow(keys: set<Long>, some: Long)
    requires some in keys
    ensures exists k :: k in keys && forall other :: other in keys ==> k <= other
    decreases some
  {
    if smaller :| smaller in keys && smaller < some {
      HasLeastBelow(keys, smaller);
    }
  }
}

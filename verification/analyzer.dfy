/** The static recompiler's control-flow analyser (src/recomp/analyzer.cpp): a stack of
    functions, a queue of blocks inside each, a linear sweep inside each block. */
module Analyzer {
  import opened Words
  import opened Decode
  import opened CodeGraph

  // ---------------------------------------------------------------- tables in the ROM

  method RomRead(rom: seq<Byte>, addr: Long, bytes: int) returns (val: Long)
    ensures val == RomValue(rom, addr, if bytes < 0 then 0 else bytes)
  {
    val := 0;
    var i := 0;
    while i < bytes
      invariant 0 <= i && (i <= bytes || i == 0)
      invariant val == RomValue(rom, addr, i)
    {
      var a := ToLong(addr + i);
      var byte: int := if a < |rom| then rom[a] else 0;
      val := ToLong(val * 0x100 + byte);
      i := i + 1;
    }
  }

  method ReadSwitchTable(p: Program, table: SwitchTable) returns (targets: seq<Long>)
    ensures forall t :: t in targets <==> TableTarget(p, table, t)
  {
    targets := [];
    for i := 0 to table.count
      invariant forall t :: t in targets <==> InRom(p, t) && exists j: nat :: j < i && Entry(p, table, j) == t
    {
      var off := ToLong(table.address + i * table.entrySize);
      var target := RomRead(p.rom, off, Signed(table.entrySize, LongSize));
      assert target == Entry(p, table, i);
      if InRom(p, target) {
        targets := targets + [target];
      }
    }
  }

  /** A sweep that has come to addr: instructions from start up to there, none of them
      ending the block. */
  ghost predicate Sweeping(p: Program, start: Long, insts: seq<Inst>, addr: Long) {
    Straight(p, insts) && Reach(p, addr) && (forall i :: 0 <= i < |insts| ==> Reach(p, insts[i].pcBefore))
    && if insts == [] then addr == start
       else insts[0].pcBefore == start && insts[|insts| - 1].flow.Plain? && insts[|insts| - 1].pcAfter == addr
  }

  /** The same with the instruction at the end still to be looked at. */
  ghost predicate Swept(p: Program, start: Long, insts: seq<Inst>) {
    Straight(p, insts) && (forall i :: 0 <= i < |insts| ==> Reach(p, insts[i].pcBefore))
    && insts != [] && insts[0].pcBefore == start
  }

  lemma NothingSwept(p: Program, start: Long)
    requires Reach(p, start)
    ensures Sweeping(p, start, [], start)
  {
  }

  lemma SweepOn(p: Program, start: Long, insts: seq<Inst>, addr: Long)
    requires Loadable(p) && Sweeping(p, start, insts, addr) && Good(p, addr)
    ensures var inst := InstAt(p.rom, addr).value;
            Swept(p, start, insts + [inst])
            && (inst.flow.Plain? ==> Sweeping(p, start, insts + [inst], inst.pcAfter))
            && inst.pcBefore == addr && addr + 2 <= inst.pcAfter <= addr + 10
  {
    hide InstAt, Reach, SwitchTarget;
    Advances(p, addr);
    var inst := InstAt(p.rom, addr).value;
    var more := insts + [inst];
    if insts == [] {
      assert more == [inst];
    }
    assert forall i :: 0 <= i < |insts| ==> more[i] == insts[i];
    if inst.flow.Plain? {
      assert Leads(p, addr, inst.pcAfter);
      ReachStep(p, addr, inst.pcAfter);
    }
  }

  lemma FileBlock(p: Program, b: Block)
    requires Even(p, b.start)
    requires (exists addr :: Sweeping(p, b.start, b.insts, addr) && !Good(p, addr) && b.exit == Exit.Return)
             || (Swept(p, b.start, b.insts) && Ends(p, b, b.insts[|b.insts| - 1]))
    ensures FiledBlock(p, b.start, b)
  {
    hide Good, Reach, Straight;
  }

  lemma TargetsReach(p: Program, b: Block)
    requires Loadable(p) && ValidBlock(p, b) && ReachBlock(p, b)
    ensures forall t :: t in Successors(b) || t in Callees(b) ==> Reach(p, t)
  {
    hide Good, Reach, Leads, ValidBlock, Successors, Callees;
    forall t | t in Successors(b) || t in Callees(b)
      ensures Reach(p, t)
    {
      assert t in Successors(b) + Callees(b);
      TargetsAreLeads(p, b, t);
      ReachStep(p, b.insts[|b.insts| - 1].pcBefore, t);
    }
  }

  ghost function Universe(p: Program): set<Long> {
    set a: Long | 0 <= a < |p.rom| && InRom(p, a)
  }

  lemma OneFewer(p: Program, blocks: set<Long>, start: Long)
    requires blocks <= Universe(p) && InRom(p, start) && start !in blocks
    ensures blocks + {start} <= Universe(p)
    ensures Universe(p) - (blocks + {start}) < Universe(p) - blocks
  {
    assert start in Universe(p) - blocks;
  }

  lemma StartTracing(p: Program, entry: Long, entries: set<Long>)
    ensures Traced(p, Function(entry, map[]), entries, [entry])
  {
  }

  /** A list without one of its elements. */
  function Without(s: seq<Long>, i: nat): (r: seq<Long>)
    requires i < |s|
    ensures forall t :: t in s ==> t == s[i] || t in r
    ensures forall t :: t in r ==> t in s
    ensures |r| == |s| - 1
  {
    assert forall t :: t in s ==> t in s[..i] || t == s[i] || t in s[i + 1..];
    s[..i] + s[i + 1..]
  }

  lemma WithoutDistinct(s: seq<Long>, i: nat)
    requires i < |s| && forall j, k :: 0 <= j < k < |s| ==> s[j] != s[k]
    ensures s[i] !in Without(s, i)
    ensures var r := Without(s, i); forall j, k :: 0 <= j < k < |r| ==> r[j] != r[k]
  {
  }

  lemma Skip(p: Program, f: Function, entries: set<Long>, waiting: seq<Long>, i: nat)
    requires i < |waiting| && Traced(p, f, entries, waiting)
    requires Settled(p, f, entries, waiting[i]) && Even(p, f.entry)
    ensures Traced(p, f, entries, Without(waiting, i))
  {
    hide FiledBlock, Successors, Callees, Without;
  }

  lemma AddBlock(p: Program, f: Function, entries: set<Long>, waiting: seq<Long>, i: nat, b: Block)
    requires i < |waiting| && Traced(p, f, entries, waiting)
    requires b.start == waiting[i] && FiledBlock(p, b.start, b)
    requires forall t :: t in Callees(b) && Even(p, t) ==> t in entries
    ensures Traced(p, f.(blocks := f.blocks[b.start := b]), entries, Without(waiting, i) + Successors(b))
  {
    hide FiledBlock, Successors, Callees, Even, Without;
  }

  /** Every known entry is traced or waiting, never both, and is reachable code; the entry
      being traced is in neither place. */
  ghost predicate Balanced(p: Program, traced: set<Long>, pending: seq<Long>, known: set<Long>, current: set<Long>) {
    (forall e :: e in known ==> Even(p, e) && Reach(p, e))
    && (forall e :: e in known <==> e in traced || e in pending || e in current)
    && (forall e :: e in pending ==> e !in traced && e !in current)
    && (forall e :: e in current ==> e !in traced)
    && (forall i, j :: 0 <= i < j < |pending| ==> pending[i] != pending[j])
  }

  lemma TakeUp(p: Program, traced: set<Long>, pending: seq<Long>, known: set<Long>, i: nat)
    requires Balanced(p, traced, pending, known, {}) && i < |pending|
    ensures Balanced(p, traced, Without(pending, i), known, {pending[i]})
    ensures pending[i] !in traced && pending[i] in known && Even(p, pending[i])
  {
    hide Reach, Without;
    WithoutDistinct(pending, i);
  }

  lemma PutDown(p: Program, traced: set<Long>, pending: seq<Long>, known: set<Long>, entry: Long)
    requires Balanced(p, traced, pending, known, {entry})
    ensures Balanced(p, traced + {entry}, pending, known, {})
    ensures entry in known && entry !in traced && Even(p, entry) && Reach(p, entry)
  {
    hide Reach;
  }

  ghost predicate EachTraced(p: Program, functions: map<Long, Function>, entries: set<Long>) {
    forall e :: e in functions ==> functions[e].entry == e && Traced(p, functions[e], entries, [])
  }

  lemma OneMoreTraced(p: Program, functions: map<Long, Function>, entries: set<Long>, f: Function, more: set<Long>)
    requires EachTraced(p, functions, entries) && entries <= more && Traced(p, f, more, [])
    ensures EachTraced(p, functions[f.entry := f], more)
  {
    hide Traced;
    forall e | e in functions
      ensures Traced(p, functions[e], more, [])
    {
      MoreEntries(p, functions[e], entries, more, []);
    }
  }

  lemma StillTraced(p: Program, functions: map<Long, Function>, entries: set<Long>, more: set<Long>)
    requires EachTraced(p, functions, entries) && entries <= more
    ensures EachTraced(p, functions, more)
  {
    hide Traced;
    forall e | e in functions
      ensures Traced(p, functions[e], more, [])
    {
      MoreEntries(p, functions[e], entries, more, []);
    }
  }

  lemma EntriesInUniverse(p: Program, entries: set<Long>)
    requires forall e :: e in entries ==> InRom(p, e)
    ensures entries <= Universe(p)
  {
  }

  lemma VectorsReach(p: Program)
    ensures forall a :: Vector(p, a) && Even(p, a) ==> Reach(p, a)
  {
    hide Vector, Reach;
    forall a | Vector(p, a) && Even(p, a)
      ensures Reach(p, a)
    {
      ReachSeed(p, a);
    }
  }

  lemma TableTargetReaches(p: Program, table: SwitchTable, t: Long)
    requires table in p.switchTables && TableTarget(p, table, t)
    ensures Even(p, t) ==> Reach(p, t)
  {
    hide Vector, Reach, TableTarget;
    if Even(p, t) {
      var k :| 0 <= k < |p.switchTables| && p.switchTables[k] == table;
      assert Seed(p, t);
      ReachSeed(p, t);
    }
  }

  lemma KnownReaches(p: Program, i: nat)
    requires i < |p.knownFunctions|
    ensures Even(p, p.knownFunctions[i]) ==> Reach(p, p.knownFunctions[i])
  {
    hide Vector, Reach;
    if Even(p, p.knownFunctions[i]) {
      assert p.knownFunctions[i] in p.knownFunctions;
      ReachSeed(p, p.knownFunctions[i]);
    }
  }

  class Analyzer {
    const p: Program
    var switchMap: map<Long, SwitchTable>
    var functions: map<Long, Function>
    var pending: seq<Long>
    var seenEntries: set<Long>
    var functionEntries: set<Long>

    /** The books of traced, waiting and known entries are balanced. */
    ghost predicate Books(current: set<Long>)
      reads this
    {
      Loadable(p) && switchMap == SwitchMap(p.switchTables) && functionEntries == seenEntries
      && Balanced(p, functions.Keys, pending, seenEntries, current)
    }

    ghost predicate AllTraced()
      reads this
    {
      EachTraced(p, functions, seenEntries)
    }

    constructor (p: Program)
      requires Loadable(p)
      ensures this.p == p && functions == map[] && pending == [] && Books({}) && AllTraced()
    {
      this.p := p;
      functions, pending, seenEntries, functionEntries := map[], [], {}, {};
      new;
      switchMap := map[];
      for i := 0 to |p.switchTables|
        invariant functions == map[] && pending == [] && seenEntries == {} && functionEntries == {}
        invariant switchMap == SwitchMap(p.switchTables[..i])
      {
        assert p.switchTables[..i + 1][..i] == p.switchTables[..i];
        switchMap := switchMap[p.switchTables[i].address := p.switchTables[i]];
      }
      assert p.switchTables[..|p.switchTables|] == p.switchTables;
    }

    method EnqueueFunction(addr: Long)
      requires Books({})
      requires Even(p, addr) ==> Reach(p, addr)
      modifies this
      ensures functions == old(functions) && switchMap == old(switchMap)
      ensures seenEntries == old(seenEntries) + (if Even(p, addr) then {addr} else {})
      ensures pending == old(pending) + (if Even(p, addr) && addr !in old(seenEntries) then [addr] else [])
      ensures Books({})
    {
      hide Reach, SwitchMap;
      if !InRom(p, addr) { return; }
      if addr % 2 == 1 { return; }
      if addr in seenEntries { return; }
      seenEntries := seenEntries + {addr};
      functionEntries := functionEntries + {addr};
      pending := pending + [addr];
    }

    /** The targets of all tables, in the order of the tables' addresses. */
    method SwitchTargets() returns (targets: seq<Long>)
      requires switchMap == SwitchMap(p.switchTables)
      ensures forall t :: t in targets <==> SwitchTarget(p, t)
    {
      hide SwitchMap, TableTarget;
      targets := [];
      var keys := switchMap.Keys;
      while keys != {}
        invariant keys <= switchMap.Keys
        invariant forall t :: t in targets <==>
                    exists k :: k in switchMap.Keys - keys && TableTarget(p, switchMap[k], t)
        decreases keys
      {
        HasLeast(keys);
        var k :| k in keys && forall other :: other in keys ==> k <= other;
        var more := ReadSwitchTable(p, switchMap[k]);
        targets := targets + more;
        keys := keys - {k};
      }
    }

    /** Sweep on from an address until the block ends. */
    method TraceBlock(start: Long) returns (b: Block)
      requires Loadable(p) && switchMap == SwitchMap(p.switchTables)
      requires Even(p, start) && Reach(p, start)
      ensures b.start == start && FiledBlock(p, start, b)
      ensures forall i :: 0 < i < |b.insts| ==> b.insts[i].pcBefore == start || b.insts[i].pcBefore !in functionEntries
      ensures b.insts != [] && b.insts[|b.insts| - 1].flow.Plain? && b.exit == Exit.Jump ==>
                b.branchTarget in functionEntries
    {
      hide InstAt, Reach, Straight, Leads, SwitchMap, SwitchTarget;
      var insts: seq<Inst> := [];
      var exit, branchTarget: Long, fallthrough: Long, callTarget: Long := Exit.Return, 0, 0, 0;
      var switchTargets: seq<Long> := [];
      var addr: Long := start;
      NothingSwept(p, start);
      while true
        invariant addr <= |p.rom| + 10
        invariant Sweeping(p, start, insts, addr)
        invariant insts != [] ==> addr == start || addr !in functionEntries
        invariant forall i :: 0 < i < |insts| ==> insts[i].pcBefore == start || insts[i].pcBefore !in functionEntries
        decreases |p.rom| + 10 - addr
      {
        if !InRom(p, addr) || addr % 2 == 1 {
          exit := Exit.Return;
          break;
        }
        var result := InstAt(p.rom, addr);
        if result.None? {
          exit := Exit.Return;
          break;
        }
        var inst := result.value;
        SweepOn(p, start, insts, addr);
        insts := insts + [inst];
        addr := inst.pcAfter;
        match inst.flow
        case Return =>
          exit := Exit.Return;
          break;
        case Branch(target) =>
          exit, branchTarget, fallthrough := Exit.Branch, target, addr;
          break;
        case Jump(target) =>
          exit, branchTarget := Exit.Jump, target;
          break;
        case JumpIndirect =>
          exit := Exit.IndirectJump;
          switchTargets := SwitchTargets();
          break;
        case Call(target) =>
          exit, callTarget, fallthrough := Exit.Call, target, addr;
          break;
        case JumpUnknown =>
          exit, branchTarget := Exit.Jump, 0;
          break;
        case CallUnknown =>
          exit, callTarget, fallthrough := Exit.Call, 0, addr;
          break;
        case CallIndirect =>
          exit, fallthrough := Exit.IndirectCall, addr;
          break;
        case Plain =>
          exit, fallthrough := Exit.Fallthrough, addr;
          if addr != start && addr in functionEntries {
            exit, branchTarget := Exit.Jump, addr;
            break;
          }
      }
      b := Block(start, insts, exit, branchTarget, fallthrough, callTarget, switchTargets);
      FileBlock(p, b);
    }

    /** Put a block's targets on the worklist and make the functions it calls known. */
    method FollowUp(b: Block, worklist: seq<Long>) returns (more: seq<Long>)
      requires Books({}) && FiledBlock(p, b.start, b)
      modifies this
      ensures functions == old(functions) && switchMap == old(switchMap)
      ensures Books({}) && old(seenEntries) <= seenEntries
      ensures more == worklist + Successors(b)
      ensures forall t :: t in Successors(b) ==> Reach(p, t)
      ensures forall t :: t in Callees(b) && Even(p, t) ==> t in seenEntries
    {
      hide Good, ValidBlock, Reach, SwitchMap, SwitchTarget;
      more := worklist;
      TargetsReach(p, b);
      match b.exit
      case Fallthrough =>
        more := more + [b.fallthrough];
      case Branch =>
        more := more + [b.fallthrough];
        more := more + [b.branchTarget];
      case Jump =>
        if b.branchTarget != 0 {
          more := more + [b.branchTarget];
        }
      case Call =>
        EnqueueFunction(b.callTarget);
        more := more + [b.fallthrough];
      case IndirectCall =>
        more := more + [b.fallthrough];
      case IndirectJump =>
        for i := 0 to |b.switchTargets|
          invariant functions == old(functions) && switchMap == old(switchMap)
          invariant Books({}) && old(seenEntries) <= seenEntries
          invariant more == worklist + b.switchTargets[..i]
          invariant forall j :: 0 <= j < i && Even(p, b.switchTargets[j]) ==> b.switchTargets[j] in seenEntries
        {
          assert b.switchTargets[i] in Callees(b);
          more := more + [b.switchTargets[i]];
          EnqueueFunction(b.switchTargets[i]);
        }
      case Return =>
    }

    /** Trace every block of a function: the waiting addresses first come, first served, or in
        any order. */
    method TraceFunction(entry: Long, anyOrder: bool)
      requires Books({entry}) && AllTraced()
      modifies this
      ensures Books({}) && AllTraced()
      ensures functions.Keys == old(functions.Keys) + {entry} && old(seenEntries) <= seenEntries
    {
      hide FiledBlock, Reach, SwitchMap, Successors, Callees, Traced, Universe, EachTraced, Without;
      hide Balanced;
      StartTracing(p, entry, seenEntries);
      PutDown(p, functions.Keys, pending, seenEntries, entry);
      var func := Function(entry, map[]);
      ghost var others := functions;
      functions := functions[entry := func];
      assert functions.Keys == others.Keys + {entry};
      var worklist := [entry];
      while worklist != []
        invariant Books({})
        invariant old(seenEntries) <= seenEntries && entry in seenEntries
        invariant functions == others[entry := func] && func.entry == entry
        invariant functions.Keys == others.Keys + {entry}
        invariant Traced(p, func, seenEntries, worklist)
        invariant forall t :: t in worklist ==> Reach(p, t)
        invariant func.blocks.Keys <= Universe(p)
        decreases Universe(p) - func.blocks.Keys, |worklist|
      {
        var i := 0;
        if anyOrder {
          i :| 0 <= i < |worklist|;
        }
        var start := worklist[i];
        ghost var waiting := worklist;
        worklist := Without(worklist, i);
        if start in func.blocks || !InRom(p, start) || start % 2 == 1 || (start != entry && start in functionEntries) {
          Skip(p, func, seenEntries, waiting, i);
          continue;
        }
        var block := TraceBlock(start);
        ghost var entries := seenEntries;
        worklist := FollowUp(block, worklist);
        MoreEntries(p, func, entries, seenEntries, waiting);
        AddBlock(p, func, seenEntries, waiting, i, block);
        OneFewer(p, func.blocks.Keys, start);
        func := func.(blocks := func.blocks[start := block]);
        functions := functions[entry := func];
        assert functions.Keys == others.Keys + {entry};
      }
      OneMoreTraced(p, others, old(seenEntries), func, seenEntries);
    }

    method SeedVectors()
      requires Books({})
      modifies this
      ensures functions == old(functions) && Books({}) && old(seenEntries) <= seenEntries
      ensures forall a :: Vector(p, a) && Even(p, a) ==> a in seenEntries
    {
      hide RomValue, Reach, SwitchMap;
      if |p.rom| >= 8 {
        var resetPc, vblankPc, hblankPc :=
          RomValue(p.rom, 4, 4), RomValue(p.rom, 0x78, 4), RomValue(p.rom, 0x70, 4);
        VectorsReach(p);
        if InRom(p, resetPc) {
          EnqueueFunction(resetPc);
        }
        if InRom(p, vblankPc) {
          EnqueueFunction(vblankPc);
        }
        if InRom(p, hblankPc) {
          EnqueueFunction(hblankPc);
        }
      }
    }

    method SeedTable(table: SwitchTable)
      requires Books({}) && table in p.switchTables
      modifies this
      ensures functions == old(functions) && Books({}) && old(seenEntries) <= seenEntries
      ensures forall t :: TableTarget(p, table, t) && Even(p, t) ==> t in seenEntries
    {
      hide Reach, SwitchMap, TableTarget;
      var targets := ReadSwitchTable(p, table);
      for i := 0 to |targets|
        invariant functions == old(functions) && Books({}) && old(seenEntries) <= seenEntries
        invariant forall j :: 0 <= j < i && Even(p, targets[j]) ==> targets[j] in seenEntries
      {
        assert targets[i] in targets;
        TableTargetReaches(p, table, targets[i]);
        if InRom(p, targets[i]) {
          EnqueueFunction(targets[i]);
        }
      }
    }

    method EnqueueSeeds()
      requires Books({})
      modifies this
      ensures functions == old(functions) && Books({}) && old(seenEntries) <= seenEntries
      ensures forall a :: Seed(p, a) ==> a in seenEntries
    {
      hide Reach, SwitchMap, TableTarget, Vector;
      SeedVectors();
      for i := 0 to |p.switchTables|
        invariant functions == old(functions) && Books({}) && old(seenEntries) <= seenEntries
        invariant forall a :: Vector(p, a) && Even(p, a) ==> a in seenEntries
        invariant forall j, t :: 0 <= j < i && TableTarget(p, p.switchTables[j], t) && Even(p, t) ==> t in seenEntries
      {
        SeedTable(p.switchTables[i]);
      }
      for i := 0 to |p.knownFunctions|
        invariant functions == old(functions) && Books({}) && old(seenEntries) <= seenEntries
        invariant forall a :: Vector(p, a) && Even(p, a) ==> a in seenEntries
        invariant forall j, t :: 0 <= j < |p.switchTables| && TableTarget(p, p.switchTables[j], t) && Even(p, t) ==>
                    t in seenEntries
        invariant forall j :: 0 <= j < i && Even(p, p.knownFunctions[j]) ==> p.knownFunctions[j] in seenEntries
      {
        KnownReaches(p, i);
        EnqueueFunction(p.knownFunctions[i]);
      }
    }

    /** Analyse the whole image, the latest known entry first, or in any order: the instructions
        found are exactly the reachable ones. */
    method Run(anyOrder: bool) returns (found: map<Long, Function>)
      requires Books({}) && AllTraced()
      modifies this
      ensures found == functions && Complete(p, found)
      ensures forall a :: Covered(found, a) <==> Reach(p, a) && Good(p, a)
    {
      hide Reach, SwitchMap, Traced, Seed, Good, Universe, Covered, Without;
      EnqueueSeeds();
      StillTraced(p, functions, old(seenEntries), seenEntries);
      EntriesInUniverse(p, functions.Keys);
      while pending != []
        invariant Books({}) && AllTraced()
        invariant forall a :: Seed(p, a) ==> a in seenEntries
        invariant functions.Keys <= Universe(p)
        decreases Universe(p) - functions.Keys
      {
        var i := |pending| - 1;
        if anyOrder {
          i :| 0 <= i < |pending|;
        }
        var entry := pending[i];
        TakeUp(p, functions.Keys, pending, seenEntries, i);
        pending := Without(pending, i);
        OneFewer(p, functions.Keys, entry);
        TraceFunction(entry, anyOrder);
      }
      found := functions;
      assert functions.Keys == seenEntries;
      forall a
        ensures Covered(found, a) <==> Reach(p, a) && Good(p, a)
      {
        CoversExactlyTheReachable(p, found, a);
      }
    }
  }
}

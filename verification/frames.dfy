/** Stack frames: BSR/JSR with RTS, TRAP with RTE, and the vertical-blank interrupt with RTE
    (src/m68k/instruction/execute.cpp and src/sega/executor/interrupt_handler.cpp). */
module Frames {
  import opened Words
  import opened CpuRegisters
  import opened Ram

  const VBLANK_INTERRUPT_LEVEL := 6

  /** The registers and the memory that frames are made of. */
  datatype State = State(usp: Long, ssp: Long, pc: Long, sr: StatusRegister, ram: seq<Byte>) {
    predicate Valid() {
      |ram| == RAM_SIZE
    }

    function StackPtr(): Long {
      if sr.supervisor then ssp else usp
    }

    function SetStackPtr(v: Long): State {
      if sr.supervisor then this.(ssp := v) else this.(usp := v)
    }
  }

  function MovedBy(sp: Long, n: int): Long {
    (sp + n) % 0x1_0000_0000
  }

  /** Push and pop; None when the bytes do not lie in the RAM. */
  function Push(s: State, bytes: seq<Byte>): (r: Option<State>)
    requires s.Valid()
    ensures r.Some? ==> r.value.Valid()
  {
    var sp := MovedBy(s.StackPtr(), -|bytes|);
    if Pos(sp) + |bytes| <= RAM_SIZE then
      Some(s.SetStackPtr(sp).(ram := Written(s.ram, Pos(sp), bytes)))
    else None
  }

  function Top(s: State, n: nat): Option<seq<Byte>>
    requires s.Valid()
  {
    var p := Pos(s.StackPtr());
    if p + n <= RAM_SIZE then Some(s.ram[p..p + n]) else None
  }

  function Pop(s: State, n: nat): (r: State)
    requires s.Valid()
    ensures r.Valid()
  {
    s.SetStackPtr(MovedBy(s.StackPtr(), n))
  }

  // ---------------------------------------------------------------- outside the work RAM

  predicate InRam(sp: Long, n: nat) {
    Pos(sp) + n <= RAM_SIZE
  }

  /** The work RAM are the highest 64 kilobytes of the 24-bit bus. */
  lemma WorkRamAddresses(sp: Long)
    ensures InRam(sp, 1) <==> sp % 0x100_0000 >= 0xFF0000
    ensures InRam(sp, 1) ==> Pos(sp) == sp % 0x100_0000 - 0xFF0000
  {
  }

  /** What a push leaves in any case: the pointer has moved, and a write that misses the RAM
      leaves it alone. */
  function Pushed(s: State, bytes: seq<Byte>): (r: State)
    requires s.Valid()
    ensures r.Valid()
  {
    var sp := MovedBy(s.StackPtr(), -|bytes|);
    var moved := s.SetStackPtr(sp);
    if InRam(sp, |bytes|) then moved.(ram := Written(s.ram, Pos(sp), bytes)) else moved
  }

  /** What a pop reads: the bytes on top, or what the bus has elsewhere, if anything. */
  function Fetched(s: State, n: nat, elsewhere: Option<seq<Byte>>): (r: Option<seq<Byte>>)
    requires s.Valid() && (elsewhere.Some? ==> |elsewhere.value| == n)
    ensures r.Some? ==> |r.value| == n
  {
    if InRam(s.StackPtr(), n) then Top(s, n) else elsewhere
  }

  /** TRAP in any case: the source ignores the results of the pushes. */
  function Trapped(s: State, handler: Long): (r: State)
    requires s.Valid()
    ensures r.Valid()
  {
    var inSupervisor := s.(sr := s.sr.(supervisor := true));
    Pushed(Pushed(inSupervisor, LongBytes(s.pc)), WordBytes(inSupervisor.sr.ToWord())).(pc := handler)
  }

  /** RTS in any case: a read that fails leaves pointer and program counter alone. */
  function AfterRts(s: State, elsewhere: Option<seq<Byte>>): (r: State)
    requires s.Valid() && (elsewhere.Some? ==> |elsewhere.value| == 4)
    ensures r.Valid()
  {
    match Fetched(s, 4, elsewhere)
    case None => s
    case Some(bytes) => LongBytesBound(bytes); Pop(s, 4).(pc := FromBytes(bytes))
  }

  /** RTE in any case; None when the status register cannot be read, because the source then
      goes on with an uninitialised one. */
  function AfterRte(s: State, word: Option<seq<Byte>>, long: Option<seq<Byte>>): (r: Option<State>)
    requires s.Valid() && (word.Some? ==> |word.value| == 2) && (long.Some? ==> |long.value| == 4)
    ensures r.Some? ==> r.value.Valid()
  {
    match Fetched(s, 2, word)
    case None => None
    case Some(bytes) =>
      LongBytesBound(bytes);
      Some(AfterRts(Pop(s, 2), long).(sr := FromWord(MaskSr(FromBytes(bytes)))))
  }

  // ---------------------------------------------------------------- entries and returns

  /** BSR and JSR push the return address and go to the target, which must be even. */
  function Call(s: State, target: Long): (r: Option<State>)
    requires s.Valid()
    ensures r.Some? ==> r.value.Valid()
  {
    var pushed := Push(s, LongBytes(s.pc));
    if pushed.Some? && target % 2 == 0 then Some(pushed.value.(pc := target)) else None
  }

  /** TRAP, and the traps of CHK and of a division by zero: the supervisor flag is set before
      the status register is saved. */
  function Trap(s: State, handler: Long): (r: Option<State>)
    requires s.Valid()
    ensures r.Some? ==> r.value.Valid()
  {
    var inSupervisor := s.(sr := s.sr.(supervisor := true));
    var first := Push(inSupervisor, LongBytes(s.pc));
    if first.None? then None else
    var second := Push(first.value, WordBytes(inSupervisor.sr.ToWord()));
    if second.None? then None else Some(second.value.(pc := handler))
  }

  /** The vertical-blank entry: both pushes happen before the supervisor flag is set. */
  function Vblank(s: State, handler: Long): (r: Option<State>)
    requires s.Valid()
    ensures r.Some? ==> r.value.Valid()
  {
    var first := Push(s, LongBytes(s.pc));
    if first.None? then None else
    var second := Push(first.value, WordBytes(s.sr.ToWord()));
    if second.None? then None else
    Some(second.value.(
      pc := handler,
      sr := second.value.sr.(supervisor := true, interruptMask := VBLANK_INTERRUPT_LEVEL)))
  }

  function Rts(s: State): (r: Option<State>)
    requires s.Valid()
    ensures r.Some? ==> r.value.Valid()
  {
    var target := Top(s, 4);
    if target.None? || FromBytes(target.value) % 2 == 1 then None
    else LongBytesBound(target.value); Some(Pop(s, 4).(pc := FromBytes(target.value)))
  }

  function Rte(s: State): (r: Option<State>)
    requires s.Valid()
    ensures r.Some? ==> r.value.Valid()
  {
    var saved := Top(s, 2);
    if saved.None? then None else
    var target := Top(Pop(s, 2), 4);
    if target.None? || FromBytes(target.value) % 2 == 1 then None else
    LongBytesBound(target.value);
    LongBytesBound(saved.value);
    Some(Pop(Pop(s, 2), 4).(pc := FromBytes(target.value), sr := FromWord(MaskSr(FromBytes(saved.value)))))
  }

  lemma LongBytesBound(s: seq<Byte>)
    ensures |s| == 2 ==> FromBytes(s) < 0x1_0000
    ensures |s| == 4 ==> FromBytes(s) < 0x1_0000_0000
  {
    if |s| == 2 {
      assert FromBytes(s[..1]) == s[0] by { assert s[..1][..0] == []; }
    } else if |s| == 4 {
      var t := s[..3];
      var u := t[..2];
      assert FromBytes(u[..1]) == u[0] by { assert u[..1][..0] == []; }
      assert FromBytes(u) < 0x1_0000;
      assert FromBytes(t) < 0x100_0000;
    }
  }

  /** The interrupt check: enabled by the video processor, masked by the status register, and
      due when enough time has passed (an input here). */
  predicate Fires(s: State, enabled: bool, due: bool) {
    enabled && s.sr.interruptMask < VBLANK_INTERRUPT_LEVEL && due
  }

  // ---------------------------------------------------------------- well-nested programs

  datatype Program = Done | Then(item: Item, rest: Program)

  /** Local stands for any instructions that leave the supervisor stack pointer, the supervisor
      flag and the live part of the stack alone; the others enclose a program between an entry
      and its return. */
  datatype Item =
    | Local(usp: Long, pc: Long, sr: StatusRegister, writes: seq<(nat, Byte)>)
    | Saved(value: Long, body: Program)
    | Subroutine(target: Long, body: Program)
    | TrapCall(handler: Long, body: Program)
    | Poll(enabled: bool, due: bool, handler: Long, body: Program)

  /** A local write may go anywhere but into the live stack, which reaches from the stack
      pointer up to where the program found it at the start. */
  predicate WriteAllowed(s: State, top: nat, w: (nat, Byte)) {
    w.0 < RAM_SIZE && !(Pos(s.ssp) <= w.0 < top)
  }

  function WriteAll(ram: seq<Byte>, writes: seq<(nat, Byte)>): (r: seq<Byte>)
    requires forall i :: 0 <= i < |writes| ==> writes[i].0 < |ram|
    ensures |r| == |ram|
    decreases |writes|
  {
    if writes == [] then ram else WriteAll(ram[writes[0].0 := writes[0].1], writes[1..])
  }

  /** A run: the final state and the number of vertical-blank entries, or None when a step
      leaves the RAM, meets an odd address, or a local step is not one. */
  function Run(p: Program, s: State, top: nat): (r: Option<(State, nat)>)
    requires s.Valid()
    ensures r.Some? ==> r.value.0.Valid()
    decreases p
  {
    match p
    case Done => Some((s, 0))
    case Then(item, rest) =>
      var first := RunItem(item, s, top);
      if first.None? then None else
      var second := Run(rest, first.value.0, top);
      if second.None? then None else Some((second.value.0, first.value.1 + second.value.1))
  }

  function RunItem(item: Item, s: State, top: nat): (r: Option<(State, nat)>)
    requires s.Valid()
    ensures r.Some? ==> r.value.0.Valid()
    decreases item
  {
    match item
    case Local(usp, pc, sr, writes) =>
      if sr.supervisor && forall i :: 0 <= i < |writes| ==> WriteAllowed(s, top, writes[i]) then
        Some((s.(usp := usp, pc := pc, sr := sr, ram := WriteAll(s.ram, writes)), 0))
      else None
    case Saved(value, body) =>
      var entered := Push(s, LongBytes(value));
      if entered.None? then None else
      var run := Run(body, entered.value, top);
      if run.None? || Top(run.value.0, 4).None? then None else Some((Pop(run.value.0, 4), run.value.1))
    case Subroutine(target, body) =>
      var entered := Call(s, target);
      if entered.None? then None else
      var run := Run(body, entered.value, top);
      if run.None? then None else
      var left := Rts(run.value.0);
      if left.None? then None else Some((left.value, run.value.1))
    case TrapCall(handler, body) =>
      var entered := Trap(s, handler);
      if entered.None? then None else
      var run := Run(body, entered.value, top);
      if run.None? then None else
      var left := Rte(run.value.0);
      if left.None? then None else Some((left.value, run.value.1))
    case Poll(enabled, due, handler, body) =>
      if !Fires(s, enabled, due) then Some((s, 0)) else
      var entered := Vblank(s, handler);
      if entered.None? then None else
      var run := Run(body, entered.value, top);
      if run.None? then None else
      var left := Rte(run.value.0);
      if left.None? then None else Some((left.value, run.value.1 + 1))
  }

  // ---------------------------------------------------------------- nesting

  /** The stack pointer is back, the machine is still in supervisor mode, and the live part of
      the stack has its bytes. */
  ghost predicate Restored(s: State, s': State, top: nat)
    requires s.Valid() && top <= RAM_SIZE
  {
    && s'.Valid()
    && s'.ssp == s.ssp
    && s'.sr.supervisor
    && forall i :: Pos(s.ssp) <= i < top ==> s'.ram[i] == s.ram[i]
  }

  /** The stack lies below top, inside the RAM. */
  ghost predicate Inside(s: State, top: nat) {
    s.Valid() && s.sr.supervisor && Pos(s.ssp) <= top <= RAM_SIZE
  }

  lemma MovedDown(sp: Long, n: int)
    requires Pos(sp) <= RAM_SIZE && 0 <= n <= 4
    requires Pos(MovedBy(sp, -n)) + n <= RAM_SIZE
    ensures Pos(MovedBy(sp, -n)) == Pos(sp) - n
    ensures MovedBy(MovedBy(sp, -n), n) == sp
  {
  }

  lemma PushFacts(s: State, bytes: seq<Byte>, top: nat)
    requires Inside(s, top) && |bytes| <= 4 && Push(s, bytes).Some?
    ensures var s1 := Push(s, bytes).value;
            && Inside(s1, top)
            && Pos(s1.ssp) == Pos(s.ssp) - |bytes|
            && MovedBy(s1.ssp, |bytes|) == s.ssp
            && s1.sr == s.sr && s1.usp == s.usp && s1.pc == s.pc
            && s1.ram[Pos(s1.ssp)..Pos(s1.ssp) + |bytes|] == bytes
            && forall i :: Pos(s.ssp) <= i < top ==> s1.ram[i] == s.ram[i]
  {
    MovedDown(s.ssp, |bytes|);
  }

  /** After a body that restores what it found, the pushed bytes are on top again. */
  lemma TopAfter(s: State, bytes: seq<Byte>, s': State, top: nat)
    requires Inside(s, top) && |bytes| <= 4 && Push(s, bytes).Some?
    requires Restored(Push(s, bytes).value, s', top)
    ensures Top(s', |bytes|) == Some(bytes)
    ensures Restored(s, Pop(s', |bytes|), top)
    ensures Pop(s', |bytes|) == s'.(ssp := s.ssp)
  {
    PushFacts(s, bytes, top);
    var s1 := Push(s, bytes).value;
    var p := Pos(s1.ssp);
    assert s'.ram[p..p + |bytes|] == s1.ram[p..p + |bytes|];
  }

  lemma {:induction false} WriteAllFrame(ram: seq<Byte>, writes: seq<(nat, Byte)>, i: nat)
    requires forall j :: 0 <= j < |writes| ==> writes[j].0 < |ram| && writes[j].0 != i
    requires i < |ram|
    ensures WriteAll(ram, writes)[i] == ram[i]
    decreases |writes|
  {
    if writes != [] {
      WriteAllFrame(ram[writes[0].0 := writes[0].1], writes[1..], i);
    }
  }

  /** Every well-nested program that runs to its end in supervisor mode returns with the stack
      pointer and the live stack it started with. */
  lemma {:induction false} NestedProgramsRestore(p: Program, s: State, top: nat)
    requires Inside(s, top) && Run(p, s, top).Some?
    ensures Restored(s, Run(p, s, top).value.0, top)
    decreases p
  {
    match p {
      case Done =>
      case Then(item, rest) =>
        NestedItemsRestore(item, s, top);
        var s1 := RunItem(item, s, top).value.0;
        NestedProgramsRestore(rest, s1, top);
    }
  }

  /** Each item does, and each return goes to the saved program counter; RTE restores the
      status register except bits 12 and 14. */
  lemma {:induction false} NestedItemsRestore(item: Item, s: State, top: nat)
    requires Inside(s, top) && RunItem(item, s, top).Some?
    ensures var s' := RunItem(item, s, top).value.0;
            && Restored(s, s', top)
            && (item.Subroutine? ==> s'.pc == s.pc)
            && (item.TrapCall? ==> s'.pc == s.pc && s'.sr == MaskedFields(s.sr))
            && (item.Poll? ==> s'.pc == s.pc)
            && (item.Poll? ==> s'.sr == if Fires(s, item.enabled, item.due) then MaskedFields(s.sr) else s.sr)
    decreases item
  {
    match item {
      case Local(usp, pc, sr, writes) =>
        forall i | Pos(s.ssp) <= i < top
          ensures WriteAll(s.ram, writes)[i] == s.ram[i]
        {
          WriteAllFrame(s.ram, writes, i);
        }
      case Saved(value, body) =>
        PushFacts(s, LongBytes(value), top);
        var s1 := Push(s, LongBytes(value)).value;
        NestedProgramsRestore(body, s1, top);
        TopAfter(s, LongBytes(value), Run(body, s1, top).value.0, top);
      case Subroutine(target, body) =>
        PushFacts(s, LongBytes(s.pc), top);
        var s1 := Call(s, target).value;
        NestedProgramsRestore(body, s1, top);
        RtsReturns(s, Run(body, s1, top).value.0, top);
      case TrapCall(handler, body) =>
        var s1 := Trap(s, handler).value;
        FrameFacts(s, top);
        NestedProgramsRestore(body, s1, top);
        RteReturns(s, Run(body, s1, top).value.0, top);
      case Poll(enabled, due, handler, body) =>
        if Fires(s, enabled, due) {
          var s1 := Vblank(s, handler).value;
          FrameFacts(s, top);
          NestedProgramsRestore(body, s1, top);
          RteReturns(s, Run(body, s1, top).value.0, top);
        }
    }
  }

  lemma RtsReturns(s: State, s': State, top: nat)
    requires Inside(s, top) && Push(s, LongBytes(s.pc)).Some?
    requires Restored(Push(s, LongBytes(s.pc)).value, s', top)
    ensures Rts(s').Some? ==>
              && Restored(s, Rts(s').value, top)
              && Rts(s').value.pc == s.pc
  {
    TopAfter(s, LongBytes(s.pc), s', top);
    Ram.LongRoundTrip(s.pc);
  }

  /** The exception frame of six bytes, in supervisor mode. */
  function FramePushed(s: State): (r: Option<State>)
    requires s.Valid()
    ensures r.Some? ==> r.value.Valid()
  {
    var first := Push(s, LongBytes(s.pc));
    if first.None? then None else Push(first.value, WordBytes(s.sr.ToWord()))
  }

  lemma FrameFacts(s: State, top: nat)
    requires Inside(s, top)
    ensures FramePushed(s).Some? ==> Inside(FramePushed(s).value, top)
    ensures forall handler :: Trap(s, handler).Some? ==>
              FramePushed(s).Some? && Trap(s, handler).value == FramePushed(s).value.(pc := handler)
    ensures forall handler :: Vblank(s, handler).Some? ==>
              FramePushed(s).Some? && Vblank(s, handler).value == FramePushed(s).value.(
                pc := handler, sr := s.sr.(interruptMask := VBLANK_INTERRUPT_LEVEL))
  {
    assert s.(sr := s.sr.(supervisor := true)) == s;
    if Push(s, LongBytes(s.pc)).Some? {
      PushFacts(s, LongBytes(s.pc), top);
      var first := Push(s, LongBytes(s.pc)).value;
      if Push(first, WordBytes(s.sr.ToWord())).Some? {
        PushFacts(first, WordBytes(s.sr.ToWord()), top);
      }
    }
  }

  lemma RteReturns(s: State, s': State, top: nat)
    requires Inside(s, top) && FramePushed(s).Some?
    requires Restored(FramePushed(s).value, s', top)
    ensures Rte(s').Some? ==>
              && Restored(s, Rte(s').value, top)
              && Rte(s').value.pc == s.pc
              && Rte(s').value.sr == MaskedFields(s.sr)
              && Rte(s').value.usp == s'.usp
  {
    var first := Push(s, LongBytes(s.pc)).value;
    PushFacts(s, LongBytes(s.pc), top);
    TopAfter(first, WordBytes(s.sr.ToWord()), s', top);
    TopAfter(s, LongBytes(s.pc), Pop(s', 2), top);
    Ram.LongRoundTrip(s.pc);
    Ram.WordRoundTrip(s.sr.ToWord());
    MaskSrFields(s.sr);
  }

  // ---------------------------------------------------------------- no re-entry

  /** No local step lowers the interrupt mask below the vertical-blank level. */
  predicate KeepsMask(p: Program)
    decreases p
  {
    match p
    case Done => true
    case Then(item, rest) => ItemKeepsMask(item) && KeepsMask(rest)
  }

  predicate ItemKeepsMask(item: Item)
    decreases item
  {
    match item
    case Local(_, _, sr, _) => sr.interruptMask >= VBLANK_INTERRUPT_LEVEL
    case Saved(_, body) => KeepsMask(body)
    case Subroutine(_, body) => KeepsMask(body)
    case TrapCall(_, body) => KeepsMask(body)
    case Poll(_, _, _, body) => KeepsMask(body)
  }

  /** While nothing lowers the mask, the interrupt is not entered again: in particular not by
      any program run as its handler, however often it polls and however deep it nests. */
  lemma {:induction false} NoReentry(p: Program, s: State, top: nat)
    requires Inside(s, top) && Run(p, s, top).Some?
    requires s.sr.interruptMask >= VBLANK_INTERRUPT_LEVEL && KeepsMask(p)
    ensures Run(p, s, top).value.1 == 0
    ensures Run(p, s, top).value.0.sr.interruptMask >= VBLANK_INTERRUPT_LEVEL
    decreases p
  {
    match p {
      case Done =>
      case Then(item, rest) =>
        NoItemReentry(item, s, top);
        NestedItemsRestore(item, s, top);
        NoReentry(rest, RunItem(item, s, top).value.0, top);
    }
  }

  lemma {:induction false} NoItemReentry(item: Item, s: State, top: nat)
    requires Inside(s, top) && RunItem(item, s, top).Some?
    requires s.sr.interruptMask >= VBLANK_INTERRUPT_LEVEL && ItemKeepsMask(item)
    ensures RunItem(item, s, top).value.1 == 0
    ensures RunItem(item, s, top).value.0.sr.interruptMask >= VBLANK_INTERRUPT_LEVEL
    decreases item
  {
    NestedItemsRestore(item, s, top);
    match item {
      case Local(usp, pc, sr, writes) =>
      case Saved(value, body) =>
        PushFacts(s, LongBytes(value), top);
        NoReentry(body, Push(s, LongBytes(value)).value, top);
      case Subroutine(target, body) =>
        PushFacts(s, LongBytes(s.pc), top);
        NoReentry(body, Call(s, target).value, top);
      case TrapCall(handler, body) =>
        FrameFacts(s, top);
        NoReentry(body, Trap(s, handler).value, top);
      case Poll(enabled, due, handler, body) =>
    }
  }

  /** A poll enters the handler, once, if and only if the interrupt is enabled and due and the
      mask is below its level. */
  lemma PollEntersExactly(enabled: bool, due: bool, handler: Long, body: Program, s: State, top: nat)
    requires Inside(s, top) && RunItem(Poll(enabled, due, handler, body), s, top).Some? && KeepsMask(body)
    ensures RunItem(Poll(enabled, due, handler, body), s, top).value.1
            == if enabled && due && s.sr.interruptMask < 6 then 1 else 0
  {
    hide Run, Vblank, Rte, KeepsMask;
    if Fires(s, enabled, due) {
      FrameFacts(s, top);
      EntryMask(s, handler);
      NoReentry(body, Vblank(s, handler).value, top);
    }
  }

  lemma EntryMask(s: State, handler: Long)
    requires s.Valid()
    ensures Vblank(s, handler).Some? ==> Vblank(s, handler).value.sr.interruptMask == 6
  {
  }

  /** No poll finds the interrupt enabled and due. */
  predicate IsQuiet(p: Program)
    decreases p
  {
    match p
    case Done => true
    case Then(item, rest) => IsQuietItem(item) && IsQuiet(rest)
  }

  predicate IsQuietItem(item: Item)
    decreases item
  {
    match item
    case Local(_, _, _, _) => true
    case Saved(_, body) => IsQuiet(body)
    case Subroutine(_, body) => IsQuiet(body)
    case TrapCall(_, body) => IsQuiet(body)
    case Poll(enabled, due, _, _) => !enabled || !due
  }

  /** While the video processor does not enable the interrupt, or none is due, no program
      enters the handler, whatever it does to the mask. */
  lemma {:induction false} QuietNeverEnters(p: Program, s: State, top: nat)
    requires s.Valid() && IsQuiet(p) && Run(p, s, top).Some?
    ensures Run(p, s, top).value.1 == 0
    decreases p
  {
    hide Call, Trap, Push, Top, Pop, Rts, Rte, Vblank;
    match p {
      case Done =>
      case Then(item, rest) =>
        QuietItem(item, s, top);
        QuietNeverEnters(rest, RunItem(item, s, top).value.0, top);
    }
  }

  lemma {:induction false} QuietItem(item: Item, s: State, top: nat)
    requires s.Valid() && IsQuietItem(item) && RunItem(item, s, top).Some?
    ensures RunItem(item, s, top).value.1 == 0
    decreases item
  {
    hide Call, Trap, Push, Top, Pop, Rts, Rte, Vblank;
    match item {
      case Local(usp, pc, sr, writes) =>
      case Saved(value, body) => QuietNeverEnters(body, Push(s, LongBytes(value)).value, top);
      case Subroutine(target, body) => QuietNeverEnters(body, Call(s, target).value, top);
      case TrapCall(handler, body) => QuietNeverEnters(body, Trap(s, handler).value, top);
      case Poll(enabled, due, handler, body) =>
    }
  }

  // ---------------------------------------------------------------- user mode

  /** Entry and return with an empty handler bring back both stack pointers, the program
      counter and the status register (but for bits 12 and 14). */
  predicate FrameRoundTrip(s: State, entered: State)
    requires entered.Valid() && Rte(entered).Some?
  {
    var s' := Rte(entered).value;
    s'.usp == s.usp && s'.ssp == s.ssp && s'.pc == s.pc && s'.sr == MaskedFields(s.sr)
  }

  lemma PushInside(s: State, bytes: seq<Byte>)
    requires s.Valid() && s.sr.supervisor && 1 <= |bytes| <= 4 && Push(s, bytes).Some?
    ensures Inside(s, Pos(s.ssp))
  {
  }

  /** TRAP followed by RTE is the identity on the machine if and only if it starts in
      supervisor mode: otherwise the saved status register already has the flag set. */
  lemma TrapFrameExactly(s: State, handler: Long)
    requires s.Valid() && Trap(s, handler).Some? && Rte(Trap(s, handler).value).Some?
    ensures FrameRoundTrip(s, Trap(s, handler).value) <==> s.sr.supervisor
  {
    var t := s.(sr := s.sr.(supervisor := true));
    PushInside(t, LongBytes(s.pc));
    var top := Pos(t.ssp);
    FrameFacts(t, top);
    assert Trap(t, handler) == Trap(s, handler);
    RteReturns(t, Trap(t, handler).value, top);
  }

  /** The vertical-blank entry followed by RTE is the identity if and only if it starts in
      supervisor mode: in user mode the frame is pushed on one stack and popped from the other. */
  lemma VblankFrameExactly(s: State, handler: Long)
    requires s.Valid() && Vblank(s, handler).Some? && Rte(Vblank(s, handler).value).Some?
    ensures FrameRoundTrip(s, Vblank(s, handler).value) <==> s.sr.supervisor
  {
    hide Written, FromBytes, StatusRegister.ToWord, Rte;
    if s.sr.supervisor {
      PushInside(s, LongBytes(s.pc));
      var top := Pos(s.ssp);
      FrameFacts(s, top);
      RteReturns(s, Vblank(s, handler).value, top);
    } else {
      UserFrameStays(s, handler);
    }
  }

  lemma UserFrameStays(s: State, handler: Long)
    requires s.Valid() && !s.sr.supervisor
    requires Vblank(s, handler).Some? && Rte(Vblank(s, handler).value).Some?
    ensures Rte(Vblank(s, handler).value).value.usp != s.usp
  {
    hide Written, StatusRegister.ToWord, FromWord, MaskSr, FromBytes, Pos;
    assert Vblank(s, handler).value.usp == MovedBy(MovedBy(s.usp, -4), -2);
  }

  // ---------------------------------------------------------------- the same in any case

  /** The vertical-blank entry in any case: the state it leaves and whether it got through. */
  function VblankEntry(s: State, handler: Long, accepted: (bool, bool)): (State, bool)
    requires s.Valid()
  {
    var first := Pushed(s, LongBytes(s.pc));
    if Push(s, LongBytes(s.pc)).None? && !accepted.0 then (first, false) else
    var second := Pushed(first, WordBytes(s.sr.ToWord()));
    if Push(first, WordBytes(s.sr.ToWord())).None? && !accepted.1 then (second, false) else
    (second.(pc := handler, sr := s.sr.(supervisor := true, interruptMask := VBLANK_INTERRUPT_LEVEL)), true)
  }

  lemma RteIsAfterRte(s: State, word: Option<seq<Byte>>, long: Option<seq<Byte>>)
    requires s.Valid() && (word.Some? ==> |word.value| == 2) && (long.Some? ==> |long.value| == 4)
    ensures Rte(s).Some? ==> Rte(s) == AfterRte(s, word, long) && Rte(s).value.pc % 2 == 0
  {
    hide FromWord, MaskSr, FromBytes;
  }

  // ---------------------------------------------------------------- the machine

  /** The registers and the RAM that the interpreter and the interrupt handler share. */
  class Machine {
    const regs: Registers
    const ram: M68kRam

    ghost predicate Valid()
      reads this, regs, ram
    {
      regs.Valid() && ram.Valid()
    }

    ghost function View(): (s: State)
      requires Valid()
      reads this, regs, ram, ram.data
      ensures s.Valid()
    {
      State(regs.usp, regs.ssp, regs.pc, regs.sr, ram.data[..])
    }

    constructor (regs: Registers, ram: M68kRam)
      requires regs.Valid() && ram.Valid()
      ensures this.regs == regs && this.ram == ram
      ensures Valid()
    {
      this.regs, this.ram := regs, ram;
    }

    /** Reserve memory on the stack and save the bytes; false when they miss the RAM. */
    method PushStack(bytes: seq<Byte>) returns (ok: bool)
      requires Valid()
      modifies regs`usp, regs`ssp, ram.data
      ensures Valid()
      ensures View() == Pushed(old(View()), bytes)
      ensures ok == Push(old(View()), bytes).Some?
      ensures ok ==> View() == Push(old(View()), bytes).value
    {
      var sp := MovedBy(regs.StackPtr(), -|bytes|);
      regs.SetStackPtr(sp);
      ok := InRam(sp, |bytes|);
      if ok {
        ram.Write(sp, bytes);
      }
    }

    /** Fetch the bytes on top and free their memory; a read that fails leaves the pointer. */
    method PopStack(n: nat, elsewhere: Option<seq<Byte>>) returns (bytes: Option<seq<Byte>>)
      requires Valid() && (elsewhere.Some? ==> |elsewhere.value| == n)
      modifies regs`usp, regs`ssp
      ensures Valid()
      ensures bytes == Fetched(old(View()), n, elsewhere)
      ensures View() == if bytes.Some? then Pop(old(View()), n) else old(View())
    {
      var sp := regs.StackPtr();
      if InRam(sp, n) {
        var value := ram.Read(sp, n);
        bytes := Some(value);
      } else {
        bytes := elsewhere;
      }
      if bytes.Some? {
        regs.SetStackPtr(MovedBy(sp, n));
      }
    }

    /** JSR, and BSR once its displacement is added; the result of the push is ignored. */
    method ExecuteCall(target: Long) returns (ok: bool)
      requires Valid()
      modifies regs`usp, regs`ssp, regs`pc, ram.data
      ensures Valid()
      ensures View() == Pushed(old(View()), LongBytes(old(regs.pc))).(pc := target)
      ensures ok == (target % 2 == 0)
      ensures Call(old(View()), target).Some? ==> ok && Call(old(View()), target) == Some(View())
    {
      var _ := PushStack(LongBytes(regs.pc));
      regs.pc := target;
      ok := target % 2 == 0;
    }

    /** TRAP and TRAPV, with the vector's contents as an input. */
    method ExecuteTrap(handler: Long)
      requires Valid()
      modifies regs`usp, regs`ssp, regs`pc, regs`sr, ram.data
      ensures Valid()
      ensures View() == Trapped(old(View()), handler)
      ensures Trap(old(View()), handler).Some? ==> Trap(old(View()), handler) == Some(View())
    {
      hide Written;
      regs.sr := regs.sr.(supervisor := true);
      var _ := PushStack(LongBytes(regs.pc));
      var _ := PushStack(WordBytes(regs.sr.ToWord()));
      regs.pc := handler;
    }

    /** The vertical-blank entry stops at a push the bus refuses; `accepted` says what another
        device makes of a push outside the RAM. */
    method CallVblank(handler: Long, accepted: (bool, bool)) returns (ok: bool)
      requires Valid()
      modifies regs`usp, regs`ssp, regs`pc, regs`sr, ram.data
      ensures Valid()
      ensures (View(), ok) == VblankEntry(old(View()), handler, accepted)
      ensures Vblank(old(View()), handler).Some? ==> ok && Vblank(old(View()), handler) == Some(View())
    {
      hide Written, StatusRegister.ToWord;
      var pushed := PushStack(LongBytes(regs.pc));
      if !pushed && !accepted.0 {
        return false;
      }
      pushed := PushStack(WordBytes(regs.sr.ToWord()));
      if !pushed && !accepted.1 {
        return false;
      }
      regs.sr := regs.sr.(supervisor := true);
      regs.sr := regs.sr.(interruptMask := VBLANK_INTERRUPT_LEVEL);
      regs.pc := handler;
      ok := true;
    }

    /** The interrupt check; `due` stands for the comparison with the clock. */
    method CheckInterrupt(enabled: bool, due: bool, handler: Long, accepted: (bool, bool))
      returns (fired: bool, ok: bool)
      requires Valid()
      modifies regs`usp, regs`ssp, regs`pc, regs`sr, ram.data
      ensures Valid()
      ensures fired == (Fires(old(View()), enabled, due) && ok)
      ensures Fires(old(View()), enabled, due) ==> (View(), ok) == VblankEntry(old(View()), handler, accepted)
      ensures !Fires(old(View()), enabled, due) ==> ok && View() == old(View())
    {
      hide VblankEntry, Vblank;
      if !enabled {
        return false, true;
      }
      if regs.sr.interruptMask >= VBLANK_INTERRUPT_LEVEL {
        return false, true;
      }
      if due {
        ok := CallVblank(handler, accepted);
        return ok, ok;
      }
      return false, true;
    }

    /** RTS; the result of the pop is ignored, an odd program counter is not. */
    method ExecuteRts(elsewhere: Option<seq<Byte>>) returns (ok: bool)
      requires Valid() && (elsewhere.Some? ==> |elsewhere.value| == 4)
      modifies regs`usp, regs`ssp, regs`pc
      ensures Valid()
      ensures View() == AfterRts(old(View()), elsewhere) && ok == (regs.pc % 2 == 0)
      ensures Rts(old(View())).Some? ==> ok && Rts(old(View())) == Some(View())
    {
      var target := PopStack(4, elsewhere);
      if target.Some? {
        LongBytesBound(target.value);
        regs.pc := FromBytes(target.value);
      }
      ok := regs.pc % 2 == 0;
    }

    /** RTE; undefined when the first pop fails. */
    method ExecuteRte(word: Option<seq<Byte>>, long: Option<seq<Byte>>) returns (defined: bool, ok: bool)
      requires Valid() && (word.Some? ==> |word.value| == 2) && (long.Some? ==> |long.value| == 4)
      modifies regs`usp, regs`ssp, regs`pc, regs`sr
      ensures Valid()
      ensures defined == AfterRte(old(View()), word, long).Some?
      ensures defined ==> AfterRte(old(View()), word, long) == Some(View()) && ok == (regs.pc % 2 == 0)
      ensures Rte(old(View())).Some? ==> defined && ok && Rte(old(View())) == Some(View())
    {
      hide FromWord, MaskSr, Fetched, Pop;
      RteIsAfterRte(View(), word, long);
      var saved := PopStack(2, word);
      if saved.None? {
        return false, false;
      }
      LongBytesBound(saved.value);
      var _ := ExecuteRts(long);
      regs.sr := FromWord(MaskSr(FromBytes(saved.value)));
      defined, ok := true, regs.pc % 2 == 0;
    }
  }
}
